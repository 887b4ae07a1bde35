/** Grisu3: shortest digits from 64-bit arithmetic, refused when the error might matter (fast-dtoa.cc). */
module FastDtoas {
  import opened Arithmetic
  import opened Decimals
  import opened DiyFps
  import opened Intervals
  import opened Shortest
  import Deciding

  const MINIMAL_TARGET_EXPONENT: int := -60
  const MAXIMAL_TARGET_EXPONENT: int := -32

  const SMALL_POWERS_OF_TEN: seq<nat> :=
    [0, 1, 10, 100, 1000, 10000, 100000, 1000000, 10000000, 100000000, 1000000000]

  lemma PowersOfTwo()
    ensures Pow(2, 2) == 0x4 && Pow(2, 3) == 0x8 && Pow(2, 4) == 0x10 && Pow(2, 5) == 0x20 && Pow(2, 6) == 0x40
    ensures Pow(2, 7) == 0x80 && Pow(2, 8) == 0x100 && Pow(2, 9) == 0x200 && Pow(2, 10) == 0x400 && Pow(2, 11) == 0x800
    ensures Pow(2, 12) == 0x1000 && Pow(2, 13) == 0x2000 && Pow(2, 14) == 0x4000 && Pow(2, 15) == 0x8000 && Pow(2, 16) == 0x10000
    ensures Pow(2, 17) == 0x20000 && Pow(2, 18) == 0x40000 && Pow(2, 19) == 0x80000 && Pow(2, 20) == 0x100000 && Pow(2, 21) == 0x200000
    ensures Pow(2, 22) == 0x400000 && Pow(2, 23) == 0x800000 && Pow(2, 24) == 0x1000000 && Pow(2, 25) == 0x2000000 && Pow(2, 26) == 0x4000000
    ensures Pow(2, 27) == 0x8000000 && Pow(2, 28) == 0x10000000 && Pow(2, 29) == 0x20000000 && Pow(2, 30) == 0x40000000 && Pow(2, 31) == 0x80000000
    ensures Pow(2, 32) == 0x100000000
  {
    hide Pow;
    Base();
    Doubled(2);
    Doubled(3);
    Doubled(4);
    Doubled(5);
    Doubled(6);
    Doubled(7);
    Doubled(8);
    Doubled(9);
    Doubled(10);
    Doubled(11);
    Doubled(12);
    Doubled(13);
    Doubled(14);
    Doubled(15);
    Doubled(16);
    Doubled(17);
    Doubled(18);
    Doubled(19);
    Doubled(20);
    Doubled(21);
    Doubled(22);
    Doubled(23);
    Doubled(24);
    Doubled(25);
    Doubled(26);
    Doubled(27);
    Doubled(28);
    Doubled(29);
    Doubled(30);
    Doubled(31);
  }

  lemma Base()
    ensures Pow(2, 2) == 4 && Pow(10, 0) == 1 && Pow(10, 1) == 10
  {
  }

  lemma Doubled(n: nat)
    ensures Pow(2, n + 1) == 2 * Pow(2, n)
  {
  }

  lemma PowersOfTen()
    ensures Pow(10, 0) == 1 && Pow(10, 1) == 10 && Pow(10, 2) == 100 && Pow(10, 3) == 1000 && Pow(10, 4) == 10000
    ensures Pow(10, 5) == 100000 && Pow(10, 6) == 1000000 && Pow(10, 7) == 10000000 && Pow(10, 8) == 100000000 && Pow(10, 9) == 1000000000
    ensures Pow(10, 10) == 10000000000
  {
    hide Pow;
    Base();
    TenMore(0);
    TenMore(1);
    TenMore(2);
    TenMore(3);
    TenMore(4);
    TenMore(5);
    TenMore(6);
    TenMore(7);
    TenMore(8);
    TenMore(9);
  }

  lemma TableIsPowers(i: nat)
    requires 1 <= i <= 10
    ensures SMALL_POWERS_OF_TEN[i] == Pow(10, i - 1)
  {
    hide Pow;
    PowersOfTen();
  }

  /** The guess of the number of digits is right or one too high. */
  lemma GuessBounds(bits: nat)
    requires 4 <= bits <= 32
    ensures var guess := (bits + 1) * 1233 / 4096 + 1;
            2 <= guess <= 10 && Pow(10, guess - 2) <= Pow(2, bits - 2) && Pow(2, bits) <= Pow(10, guess)
  {
    hide Pow;
    PowersOfTwo();
    PowersOfTen();
  }

  /** The biggest power of ten that is at most number, and its exponent plus one. */
  method BiggestPowerTen(number: nat, numberBits: nat) returns (power: nat, exponentPlusOne: nat)
    requires 4 <= numberBits <= 32 && Pow(2, numberBits - 2) <= number < Pow(2, numberBits)
    ensures 1 <= exponentPlusOne <= 10 && power == Pow(10, exponentPlusOne - 1)
    ensures power <= number < 10 * power
  {
    hide Pow;
    var guess := (numberBits + 1) * 1233 / 4096;
    guess := guess + 1;
    GuessBounds(numberBits);
    TableIsPowers(guess);
    if number < SMALL_POWERS_OF_TEN[guess] {
      guess := guess - 1;
      TableIsPowers(guess);
    }
    TenMore(guess - 1);
    power := SMALL_POWERS_OF_TEN[guess];
    exponentPlusOne := guess;
  }

  /** The distance from too_high after decrementing the digits d times. */
  function Lowered(rest: nat, tenKappa: nat, d: nat): (r: nat)
    ensures r >= rest
  {
    MulMonotone(0, d, tenKappa);
    rest + d * tenKappa
  }

  lemma LoweredNext(rest: nat, tenKappa: nat, d: nat)
    ensures Lowered(rest, tenKappa, d + 1) == Lowered(rest, tenKappa, d) + tenKappa
  {
  }

  lemma LoweredGrows(rest: nat, tenKappa: nat, a: nat, b: nat)
    requires a < b
    ensures Lowered(rest, tenKappa, a) + tenKappa <= Lowered(rest, tenKappa, b)
  {
    MulMonotone(a + 1, b, tenKappa);
    assert (a + 1) * tenKappa == a * tenKappa + tenKappa;
  }

  /** Why stopping after d decrements was right: going one back would leave w for certain, and so
      would going one further, or it would leave the unsafe interval. */
  ghost predicate Settled(rest: nat, tenKappa: nat, unsafeInterval: nat, smallDistance: nat, bigDistance: nat, d: nat) {
    var r := Lowered(rest, tenKappa, d);
    && (d > 0 ==> 2 * r <= 2 * smallDistance + tenKappa)
    && (r + tenKappa <= unsafeInterval ==> 2 * bigDistance <= 2 * r + tenKappa)
  }

  /** Approaches w from above, then refuses if w or the interval is not known well enough. */
  method RoundWeed(buffer: array<char>, length: nat, distanceTooHighW: nat, unsafeInterval: nat, rest0: nat,
                   tenKappa: nat, unit: nat) returns (ok: bool, ghost d: nat)
    requires 0 < length <= buffer.Length && AllDigits(buffer[..length])
    requires rest0 <= unsafeInterval < WORD && 0 < unit <= distanceTooHighW
    requires distanceTooHighW + unit <= unsafeInterval && 4 * unit <= unsafeInterval && 0 < tenKappa < WORD
    requires Lowered(rest0, tenKappa, Digit(buffer[length - 1])) >= unsafeInterval
    modifies buffer
    ensures AllDigits(buffer[..length]) && d <= Digit(old(buffer[length - 1]))
    ensures DecimalValue(buffer[..length]) == DecimalValue(old(buffer[..length])) - d
    ensures forall i :: 0 <= i < buffer.Length && i != length - 1 ==> buffer[i] == old(buffer[i])
    ensures buffer[length - 1] as int == old(buffer[length - 1]) as int - d
    ensures ok <==>
              && Settled(rest0, tenKappa, unsafeInterval, distanceTooHighW - unit, distanceTooHighW + unit, d)
              && 2 * unit <= Lowered(rest0, tenKappa, d) <= unsafeInterval - 4 * unit
  {
    hide Lowered;
    var smallDistance, bigDistance := distanceTooHighW - unit, distanceTooHighW + unit;
    var rest := rest0;
    ghost var last := buffer[length - 1];
    d := 0;
    assert Lowered(rest0, tenKappa, 0) == rest0 by { NotLowered(rest0, tenKappa); }
    while rest < smallDistance && unsafeInterval - rest >= tenKappa
        && (rest + tenKappa < smallDistance || smallDistance - rest >= rest + tenKappa - smallDistance)
      invariant rest == Lowered(rest0, tenKappa, d) <= unsafeInterval
      invariant d <= Digit(last) && buffer[length - 1] as int == last as int - d
      invariant forall i :: 0 <= i < buffer.Length && i != length - 1 ==> buffer[i] == old(buffer[i])
      invariant d > 0 ==> 2 * rest <= 2 * smallDistance + tenKappa
      decreases unsafeInterval - rest
    {
      if d == Digit(last) {
        assert false;
      }
      LoweredNext(rest0, tenKappa, d);
      assert rest + tenKappa < WORD;
      buffer[length - 1] := (buffer[length - 1] as int - 1) as char;
      rest := rest + tenKappa;
      d := d + 1;
    }
    LastLowered(old(buffer[..length]), buffer[..length], d);
    if rest < bigDistance && unsafeInterval - rest >= tenKappa
      && (rest + tenKappa < bigDistance || bigDistance - rest > rest + tenKappa - bigDistance)
    {
      return false, d;
    }
    ok := 2 * unit <= rest && rest <= unsafeInterval - 4 * unit;
  }

  lemma NotLowered(rest: nat, tenKappa: nat)
    ensures Lowered(rest, tenKappa, 0) == rest
  {
  }

  lemma LastLowered(s: seq<char>, t: seq<char>, d: nat)
    requires AllDigits(s) && |s| == |t| > 0 && d <= Digit(s[|s| - 1])
    requires t[|t| - 1] as int == s[|s| - 1] as int - d && forall i :: 0 <= i < |s| - 1 ==> t[i] == s[i]
    ensures AllDigits(t) && DecimalValue(t) == DecimalValue(s) - d
  {
    assert t[..|t| - 1] == s[..|s| - 1];
  }

  function AbsR(x: real): real {
    if x >= 0.0 then x else -x
  }

  /** Whatever the true distance of w from too_high is, no candidate in the unsafe interval is closer,
      and none that is equally close for all of them. */
  lemma SettledIsClosest(rest: nat, tenKappa: nat, unsafeInterval: nat, small: nat, big: nat, d: nat, i: nat, w: real)
    requires Settled(rest, tenKappa, unsafeInterval, small, big, d) && tenKappa > 0
    requires Lowered(rest, tenKappa, i) <= unsafeInterval && i != d && small as real < w < big as real
    ensures AbsR(Lowered(rest, tenKappa, d) as real - w) < AbsR(Lowered(rest, tenKappa, i) as real - w)
  {
    hide Lowered;
    if i > d {
      LoweredGrows(rest, tenKappa, d, i);
    } else {
      LoweredGrows(rest, tenKappa, i, d);
    }
  }

  /** The digits n of total / 10^kappa and what is left of total, both in units of 1 / unit. */
  ghost predicate Generated(total: nat, one: nat, n: nat, kappa: int, rest: nat) {
    total * Ten(-kappa) == n * (Ten(kappa) * one) + rest && rest < Ten(kappa) * one
  }

  /** Not yet inside the unsafe interval. */
  ghost predicate Outside(unsafeInterval: nat, kappa: int, rest: nat) {
    rest >= unsafeInterval * Ten(-kappa)
  }

  /** The word made of an integral and a fractional part. */
  function Join(integrals: nat, one: nat, fractionals: nat): nat {
    integrals * one + fractionals
  }

  /** The next integral digit. */
  lemma IntegralStep(total: nat, one: nat, n: nat, kappa: int, integrals: nat, fractionals: nat, divisor: nat, digit: nat, left: nat)
    requires kappa > 0 && divisor == Pow(10, kappa - 1) && fractionals < one
    requires Generated(total, one, n, kappa, Join(integrals, one, fractionals))
    requires integrals == digit * divisor + left && left < divisor
    ensures Generated(total, one, 10 * n + digit, kappa - 1, Join(left, one, fractionals))
    ensures Join(integrals, one, fractionals) == digit * (divisor * one) + Join(left, one, fractionals)
    ensures Ten(-kappa) == 1 && Ten(-(kappa - 1)) == 1 && Ten(kappa - 1) == divisor
  {
    hide Pow;
    TenPowers(kappa);
    StepAlgebra(n, digit, divisor, one, left);
    MulMonotone(left + 1, divisor, one);
    assert (left + 1) * one == left * one + one;
  }

  lemma StepAlgebra(n: int, digit: int, divisor: int, one: int, left: int)
    ensures (10 * n + digit) * (divisor * one) == n * ((10 * divisor) * one) + digit * (divisor * one)
    ensures (digit * divisor + left) * one == digit * (divisor * one) + left * one
  {
    assert n * ((10 * divisor) * one) == (10 * n) * (divisor * one);
  }

  lemma TenPowers(kappa: int)
    ensures kappa > 0 ==> Ten(kappa) == 10 * Pow(10, kappa - 1) && Ten(kappa - 1) == Pow(10, kappa - 1) && Ten(-kappa) == 1 && Ten(1 - kappa) == 1
    ensures kappa <= 0 ==> Ten(kappa) == 1 && Ten(kappa - 1) == 1 && Ten(1 - kappa) == 10 * Ten(-kappa)
  {
    assert Pow(10, 0) == 1;
  }

  /** The next fractional digit. */
  lemma FractionalStep(total: nat, one: nat, n: nat, kappa: int, fractionals: nat, digit: nat, left: nat)
    requires kappa <= 0 && Generated(total, one, n, kappa, fractionals)
    requires 10 * fractionals == digit * one + left && left < one
    ensures Generated(total, one, 10 * n + digit, kappa - 1, left)
    ensures digit <= 9 && Ten(kappa) == 1 && Ten(kappa - 1) == 1 && Ten(1 - kappa) == 10 * Ten(-kappa)
  {
    hide Pow;
    TenPowers(kappa);
    assert total * (10 * Ten(-kappa)) == 10 * (total * Ten(-kappa));
    assert (10 * n + digit) * one == 10 * (n * one) + digit * one;
    if digit > 9 {
      MulMonotone(10, digit, one);
    }
  }

  /** Digits generated while still outside the unsafe interval leave room in the buffer. */
  lemma RoomLeft(total: nat, one: nat, n: nat, kappa: int, rest: nat, unsafeInterval: nat, length: nat, size: nat)
    requires Generated(total, one, n, kappa, rest) && Outside(unsafeInterval, kappa, rest)
    requires length > 0 && n >= Pow(10, length - 1) && size > 0 && total < unsafeInterval * Pow(10, size - 1)
    ensures length < size
  {
    hide Pow;
    var u, t, p := Ten(-kappa), Ten(kappa) * one, Pow(10, length - 1);
    MulMonotone(p, n, t);
    MulMonotone(unsafeInterval * u, t, p);
    assert (unsafeInterval * u) * p == (unsafeInterval * p) * u;
    MulCancel(unsafeInterval * p, total, u);
    if length >= size {
      PowMonotone(10, size - 1, length - 1);
      MulMonotone(Pow(10, size - 1), p, unsafeInterval);
    }
  }

  /** A distance in units of the last place, brought to the current scale. */
  ghost function Reach(x: nat, unit: nat): nat {
    x * unit
  }

  /** What it means that the digits n', n' = n - d, were accepted: n are the digits of too_high, one
      digit less would not have done, n' is settled, and it lies in the safe interval. */
  ghost predicate Accepted(low: nat, w: nat, high: nat, one: nat, length: nat, kappa: int, n: nat, rest: nat, d: nat) {
    low <= w <= high &&
    var total, unsafeInterval, unit, tenKappa := high + 1, high - low + 2, Ten(-kappa), Ten(kappa) * one;
    && Generated(total, one, n, kappa, rest)
    && length > 0 && Pow(10, length - 1) <= n < Pow(10, length) && d <= n
    && (length > 1 ==> Lowered(rest, tenKappa, n % 10) >= unsafeInterval * unit)
    && Settled(rest, tenKappa, Reach(high - low + 2, unit), Reach(high - w, unit), Reach(high - w + 2, unit), d)
    && 2 * unit <= Lowered(rest, tenKappa, d) <= unsafeInterval * unit - 4 * unit
  }

  /** The buffer holds the digits of n, starting with a non-zero one. */
  ghost predicate Holds(digits: seq<char>, n: nat) {
    AllDigits(digits) && DecimalValue(digits) == n < Pow(10, |digits|) && (|digits| > 0 ==> n >= Pow(10, |digits| - 1))
  }

  lemma MoreDigits(digits: seq<char>, n: nat, digit: nat)
    requires Holds(digits, n) && digit <= 9 && (digits == [] ==> digit > 0)
    ensures Holds(digits + [DigitChar(digit)], 10 * n + digit) && digit == (10 * n + digit) % 10
  {
    hide DecimalValue, DigitChar;
    DecimalAppend(digits, DigitChar(digit));
    if digits == [] {
      assert Pow(10, 0) == 1;
    } else {
      TenMore(|digits| - 1);
    }
  }

  /** One more character at the end of the buffer. */
  method Append(buffer: array<char>, length: nat, digit: nat, ghost n: nat)
    requires length < buffer.Length && Holds(buffer[..length], n) && digit <= 9 && (length == 0 ==> digit > 0)
    modifies buffer
    ensures Holds(buffer[..length + 1], 10 * n + digit) && Digit(buffer[length]) == digit
    ensures forall i :: 0 <= i < buffer.Length && i != length ==> buffer[i] == old(buffer[i])
  {
    MoreDigits(buffer[..length], n, digit);
    ghost var prefix := buffer[..length];
    buffer[length] := DigitChar(digit);
    assert buffer[..length + 1] == prefix + [DigitChar(digit)];
  }

  /** RoundWeed at the end of digit generation. */
  method Weed(buffer: array<char>, length: nat, low: nat, w: nat, high: nat, one: nat, kappa: int,
              distance: nat, unsafeInterval: nat, rest: nat, tenKappa: nat, unit: nat, ghost n: nat)
      returns (ok: bool, ghost d: nat)
    requires 1 < low && low + 1 <= high - 1 && low <= w <= high && high + 1 < WORD
    requires unit == Ten(-kappa) && tenKappa == Ten(kappa) * one && 0 < tenKappa < WORD
    requires unsafeInterval == (high - low + 2) * unit < WORD && distance == (high + 1 - w) * unit
    requires 0 < length <= buffer.Length && Holds(buffer[..length], n) && Digit(buffer[length - 1]) == n % 10
    requires Generated(high + 1, one, n, kappa, rest) && rest < unsafeInterval
    requires length > 1 ==> Lowered(rest, tenKappa, n % 10) >= unsafeInterval
    modifies buffer
    ensures ok ==> Accepted(low, w, high, one, length, kappa, n, rest, d)
    ensures AllDigits(buffer[..length]) && DecimalValue(buffer[..length]) == n - d
  {
    hide Pow, Lowered, Settled, DecimalValue, Ten;
    Distances(low, w, high, unit);
    if length == 1 {
      OneDigit(buffer[..1], n);
      WholeNumber(high + 1, one, n, kappa, rest, unsafeInterval, high - low + 2);
    }
    ok, d := RoundWeed(buffer, length, distance, unsafeInterval, rest, tenKappa, unit);
  }

  lemma Distances(low: nat, w: nat, high: nat, unit: nat)
    requires low + 1 <= high - 1 && low <= w <= high && unit > 0
    ensures unit <= (high + 1 - w) * unit && (high + 1 - w) * unit + unit <= (high - low + 2) * unit
    ensures 4 * unit <= (high - low + 2) * unit
    ensures (high + 1 - w) * unit - unit == (high - w) * unit && (high + 1 - w) * unit + unit == (high - w + 2) * unit
  {
    MulMonotone(1, high + 1 - w, unit);
    MulMonotone(high - w + 2, high - low + 2, unit);
    assert (high - w + 2) * unit == (high + 1 - w) * unit + unit;
    assert (high + 1 - w) * unit == (high - w) * unit + unit;
    MulMonotone(4, high - low + 2, unit);
  }

  lemma OneDigit(s: seq<char>, n: nat)
    requires |s| == 1 && Holds(s, n)
    ensures n == Digit(s[0]) == n % 10
  {
    assert s == [] + [s[0]];
    DecimalAppend([], s[0]);
  }

  /** All the way down to zero is further than the unsafe interval reaches. */
  lemma WholeNumber(total: nat, one: nat, n: nat, kappa: int, rest: nat, unsafeInterval: nat, u: nat)
    requires Generated(total, one, n, kappa, rest) && unsafeInterval == u * Ten(-kappa) && u <= total
    ensures Lowered(rest, Ten(kappa) * one, n) >= unsafeInterval
  {
    MulMonotone(u, total, Ten(-kappa));
  }

  lemma SplitTooHigh(total: nat, shift: nat, integrals: nat, fractionals: nat)
    requires 0x4000_0000_0000_0000 <= total < WORD && 32 <= shift <= 60
    requires integrals == total / Pow(2, shift) && fractionals == total % Pow(2, shift)
    ensures total == integrals * Pow(2, shift) + fractionals && fractionals < Pow(2, shift)
    ensures Pow(2, 64 - shift - 2) <= integrals < Pow(2, 64 - shift)
    ensures Pow(2, shift) <= 0x1000_0000_0000_0000
  {
    hide Pow;
    var one, n := Pow(2, shift), 60;
    Sixty();
    PowMonotone(2, shift, n);
    PowAdd(2, 64 - shift - 2, shift);
    PowAdd(2, 64 - shift, shift);
    Deciding.DivMod(total, one, integrals, fractionals);
    assert (integrals + 1) * one == integrals * one + one;
    MulCancel(Pow(2, 64 - shift - 2), integrals + 1, one);
    MulCancel(integrals, Pow(2, 64 - shift), one);
  }

  lemma Sixty()
    ensures Pow(2, 60) == 0x1000_0000_0000_0000 && Pow(2, 62) == 0x4000_0000_0000_0000 && Pow(2, 64) == WORD
  {
    hide Pow;
    PowersOfTwo();
    PowAdd(2, 30, 30);
    PowAdd(2, 31, 31);
    PowAdd(2, 32, 32);
  }

  lemma Start(total: nat, one: nat, kappa: int, integrals: nat, fractionals: nat, divisor: nat)
    requires total == integrals * one + fractionals && fractionals < one && total < WORD
    requires kappa > 0 && divisor == Pow(10, kappa - 1) && divisor <= integrals < 10 * divisor
    ensures Generated(total, one, 0, kappa, total) && divisor * one < WORD && Holds([], 0)
    ensures Join(integrals, one, fractionals) == total && Join(0, one, fractionals) == fractionals
  {
    hide Pow;
    TenPowers(kappa);
    MulMonotone(divisor, integrals, one);
    MulMonotone(integrals + 1, 10 * divisor, one);
    assert (integrals + 1) * one == integrals * one + one;
  }

  lemma Quotient10(x: nat, divisor: nat, digit: nat, left: nat)
    requires divisor > 0 && x < 10 * divisor && digit == x / divisor && left == x % divisor
    ensures x == digit * divisor + left && left < divisor && digit <= 9 && (divisor <= x ==> digit > 0)
  {
    Deciding.DivMod(x, divisor, digit, left);
    if digit > 9 {
      MulMonotone(10, digit, divisor);
    }
  }

  lemma NoLongerOutside(unsafeInterval: nat, before: nat, rest: nat, tenKappa: nat, n: nat, length: nat, digit: nat)
    requires before == digit * tenKappa + rest && n % 10 == digit
    requires length > 1 ==> before >= unsafeInterval
    ensures length > 1 ==> Lowered(rest, tenKappa, n % 10) >= unsafeInterval
  {
  }

  lemma WasOutside(unsafeInterval: nat, kappa: int, rest: nat)
    requires kappa >= 0 && Outside(unsafeInterval, kappa, rest)
    ensures rest >= unsafeInterval
  {
    assert Pow(10, 0) == 1;
  }

  lemma StillOutside(unsafeInterval: nat, kappa: int, rest: nat)
    requires kappa >= 0 && rest >= unsafeInterval
    ensures Outside(unsafeInterval, kappa, rest)
  {
    assert Pow(10, 0) == 1;
  }

  lemma HoldsLower(digits: seq<char>, n: nat)
    requires Holds(digits, n) && |digits| > 0
    ensures n >= Pow(10, |digits| - 1)
  {
  }

  lemma NextDivisor(kappa: nat, divisor: nat, one: nat)
    requires kappa > 0 && divisor == Pow(10, kappa) && divisor * one < WORD
    ensures divisor / 10 == Pow(10, kappa - 1) && (divisor / 10) * one < WORD && divisor == 10 * (divisor / 10)
  {
    hide Pow;
    TenMore(kappa - 1);
    MulMonotone(divisor / 10, divisor, one);
  }

  method WeedFraction(buffer: array<char>, length: nat, low: nat, w: nat, high: nat, one: nat, kappa: int,
                      unsafeInterval: nat, fractionals: nat, unit: nat, ghost n: nat, ghost before: nat, ghost digit: nat)
      returns (ok: bool, ghost d: nat)
    requires 1 < low && low + 1 <= high - 1 && low <= w <= high && high + 1 < WORD
    requires unit == Ten(-kappa) && Ten(kappa) == 1 && 0 < one < WORD
    requires unsafeInterval == (high - low + 2) * unit < WORD
    requires 1 < length <= buffer.Length && Holds(buffer[..length], n) && Digit(buffer[length - 1]) == n % 10 == digit
    requires Generated(high + 1, one, n, kappa, fractionals) && fractionals < unsafeInterval
    requires before == digit * one + fractionals && before >= unsafeInterval
    modifies buffer
    ensures ok ==> Accepted(low, w, high, one, length, kappa, n, fractionals, d)
    ensures AllDigits(buffer[..length]) && DecimalValue(buffer[..length]) == n - d
  {
    hide Pow, Lowered, Accepted, Holds, Generated, Ten, DecimalValue;
    NoLongerOutside(unsafeInterval, before, fractionals, one, n, length, digit);
    Distances(low, w, high, unit);
    ok, d := Weed(buffer, length, low, w, high, one, kappa, (high + 1 - w) * unit, unsafeInterval,
                  fractionals, one, unit, n);
  }

  method WeedIntegral(buffer: array<char>, length: nat, low: nat, w: nat, high: nat, one: nat, kappa: int,
                      unsafeInterval: nat, rest: nat, divisor: nat, ghost n: nat, ghost before: nat, ghost digit: nat)
      returns (ok: bool, ghost d: nat)
    requires 1 < low && low + 1 <= high - 1 && low <= w <= high && high + 1 < WORD
    requires kappa >= 0 && Ten(-kappa) == 1 && Ten(kappa) == divisor && 0 < one && divisor * one < WORD
    requires unsafeInterval == high - low + 2 < WORD
    requires 0 < length <= buffer.Length && Holds(buffer[..length], n) && Digit(buffer[length - 1]) == n % 10 == digit
    requires Generated(high + 1, one, n, kappa, rest) && rest < unsafeInterval
    requires before == digit * (divisor * one) + rest && (length > 1 ==> Outside(unsafeInterval, kappa + 1, before))
    modifies buffer
    ensures ok ==> Accepted(low, w, high, one, length, kappa, n, rest, d)
    ensures AllDigits(buffer[..length]) && DecimalValue(buffer[..length]) == n - d
  {
    hide Pow, Lowered, Accepted, Holds, Generated, DecimalValue, Outside;
    if length > 1 {
      WasOutside(unsafeInterval, kappa + 1, before);
    }
    MulStrict(0, divisor, one);
    NoLongerOutside(unsafeInterval, before, rest, divisor * one, n, length, digit);
    ok, d := Weed(buffer, length, low, w, high, one, kappa, high + 1 - w, unsafeInterval, rest, divisor * one, 1, n);
  }

  /** One digit after the point. */
  method FractionalDigit(buffer: array<char>, length: nat, one: nat, fractionals0: nat,
                         ghost total: nat, ghost n: nat, ghost kappa: int) returns (left: nat, digit: nat)
    requires 0 < one <= 0x1000_0000_0000_0000 && fractionals0 < one && 0 < length < buffer.Length
    requires Holds(buffer[..length], n) && kappa <= 0 && Generated(total, one, n, kappa, fractionals0)
    modifies buffer
    ensures 10 * fractionals0 == digit * one + left && left < one
    ensures Holds(buffer[..length + 1], 10 * n + digit) && Digit(buffer[length]) == digit == (10 * n + digit) % 10
    ensures Generated(total, one, 10 * n + digit, kappa - 1, left)
    ensures Ten(kappa - 1) == 1 && Ten(1 - kappa) == 10 * Ten(-kappa)
  {
    hide Pow, Holds, Generated, Ten, DecimalValue;
    var fractionals := fractionals0 * 10;
    assert fractionals < WORD;
    digit := fractionals / one;
    left := fractionals % one;
    Quotient10(fractionals, one, digit, left);
    FractionalStep(total, one, n, kappa, fractionals0, digit, left);
    Append(buffer, length, digit, n);
  }

  /** One digit before the point. */
  method IntegralDigit(buffer: array<char>, length: nat, one: nat, integrals: nat, divisor: nat, ghost fractionals: nat,
                       ghost total: nat, ghost n: nat, ghost kappa: int) returns (left: nat, ghost digit: nat)
    requires kappa > 0 && divisor == Pow(10, kappa - 1) && integrals < 10 * divisor && fractionals < one
    requires length < buffer.Length && Holds(buffer[..length], n) && (length == 0 ==> divisor <= integrals)
    requires Generated(total, one, n, kappa, Join(integrals, one, fractionals))
    modifies buffer
    ensures left < divisor && Holds(buffer[..length + 1], 10 * n + digit)
    ensures Digit(buffer[length]) == digit == (10 * n + digit) % 10
    ensures Generated(total, one, 10 * n + digit, kappa - 1, Join(left, one, fractionals))
    ensures Join(integrals, one, fractionals) == digit * (divisor * one) + Join(left, one, fractionals)
    ensures Ten(-kappa) == 1 && Ten(-(kappa - 1)) == 1 && Ten(kappa - 1) == divisor
  {
    hide Pow, Holds, Generated, Ten, DecimalValue, Join;
    digit := integrals / divisor;
    var next: nat := integrals / divisor;
    left := integrals % divisor;
    Quotient10(integrals, divisor, digit, left);
    IntegralStep(total, one, n, kappa, integrals, fractionals, divisor, digit, left);
    Append(buffer, length, next, n);
  }

  /** The digits after the point: everything is multiplied by ten before each. */
  method FractionalDigits(low: nat, w: nat, high: nat, one: nat, fractionals0: nat, unsafeInterval0: nat,
                          buffer: array<char>, length0: nat, ghost n0: nat)
      returns (ok: bool, length: nat, kappa: int, ghost n: nat, ghost rest: nat, ghost d: nat)
    requires 1 < low && low + 1 <= high - 1 && low <= w <= high && high + 1 < WORD
    requires 0 < one <= 0x1000_0000_0000_0000 && unsafeInterval0 == high - low + 2
    requires 0 < length0 < buffer.Length && Holds(buffer[..length0], n0)
    requires Generated(high + 1, one, n0, 0, fractionals0) && Outside(unsafeInterval0, 0, fractionals0)
    requires high + 1 < unsafeInterval0 * Pow(10, buffer.Length - 1)
    modifies buffer
    ensures ok ==>
              && 0 < length <= buffer.Length && AllDigits(buffer[..length])
              && Accepted(low, w, high, one, length, kappa, n, rest, d)
              && DecimalValue(buffer[..length]) == n - d
  {
    hide Pow, Lowered, Accepted, Holds, Generated, Ten, DecimalValue;
    var fractionals, unsafeInterval, unit := fractionals0, unsafeInterval0, 1;
    ok, length, kappa, n, rest, d := false, length0, 0, n0, fractionals0, 0;
    TenPowers(0);
    FractionBelow(high + 1, one, n, kappa, fractionals);
    while true
      invariant kappa <= 0 && unit == Ten(-kappa) && Ten(kappa) == 1
      invariant unsafeInterval == unsafeInterval0 * unit <= fractionals < one
      invariant 0 < length < buffer.Length && Holds(buffer[..length], n)
      invariant Generated(high + 1, one, n, kappa, fractionals)
      decreases one - unsafeInterval
    {
      ghost var before, unit0 := fractionals, unit;
      unit, unsafeInterval := unit * 10, unsafeInterval * 10;
      assert unsafeInterval < WORD;
      var digit;
      fractionals, digit := FractionalDigit(buffer, length, one, fractionals, high + 1, n, kappa);
      length := length + 1;
      kappa := kappa - 1;
      n, rest := 10 * n + digit, fractionals;
      Tenths(unsafeInterval0, unit0);
      if fractionals < unsafeInterval {
        ok, d := WeedFraction(buffer, length, low, w, high, one, kappa, unsafeInterval, fractionals, unit, n, 10 * before, digit);
        return;
      }
      HoldsLower(buffer[..length], n);
      RoomLeft(high + 1, one, n, kappa, rest, unsafeInterval0, length, buffer.Length);
    }
  }

  lemma Tenths(u: int, unit: int)
    ensures (u * unit) * 10 == u * (unit * 10)
  {
  }

  lemma FractionBelow(total: nat, one: nat, n: nat, kappa: int, rest: nat)
    requires Generated(total, one, n, kappa, rest) && Ten(kappa) == 1
    ensures rest < one
  {
  }

  /** Shortest digits of a number w known to within one unit, between low and high, also so known. */
  method DigitGen(low: DiyFp, w: DiyFp, high: DiyFp, buffer: array<char>)
      returns (ok: bool, length: nat, kappa: int, ghost n: nat, ghost rest: nat, ghost d: nat)
    requires low.e == w.e == high.e && MINIMAL_TARGET_EXPONENT <= w.e <= MAXIMAL_TARGET_EXPONENT
    requires 1 < low.f && low.f + 1 <= high.f - 1 && low.f <= w.f <= high.f && high.f + 1 < WORD
    requires high.f + 1 >= 0x4000_0000_0000_0000
    requires buffer.Length > 0 && high.f + 1 < (high.f - low.f + 2) * Pow(10, buffer.Length - 1)
    modifies buffer
    ensures ok ==>
              && 0 < length <= buffer.Length && AllDigits(buffer[..length])
              && Accepted(low.f, w.f, high.f, Pow(2, -w.e), length, kappa, n, rest, d)
              && DecimalValue(buffer[..length]) == n - d
  {
    hide Pow, Lowered, Accepted, Holds, Generated, Ten, Outside, Join;
    var tooLow, tooHigh := low.f - 1, high.f + 1;
    var unsafeInterval := tooHigh - tooLow;
    var one := Pow(2, -w.e);
    var integrals: nat, fractionals: nat := tooHigh / one, tooHigh % one;
    SplitTooHigh(tooHigh, -w.e, integrals, fractionals);
    var divisor, exponentPlusOne := BiggestPowerTen(integrals, 64 + w.e);
    kappa, length, n, rest, d := exponentPlusOne, 0, 0, tooHigh, 0;
    Start(tooHigh, one, kappa, integrals, fractionals, divisor);
    while kappa > 0
      invariant 0 <= kappa <= exponentPlusOne && length <= buffer.Length
      invariant Holds(buffer[..length], n) && (length == 0 ==> n == 0 && kappa > 0 && divisor <= integrals)
      invariant kappa > 0 ==> divisor == Pow(10, kappa - 1) && divisor * one < WORD
      invariant integrals < 10 * divisor || kappa == 0
      invariant kappa == 0 ==> integrals == 0
      invariant rest == Join(integrals, one, fractionals) && fractionals < one
      invariant Generated(tooHigh, one, n, kappa, rest)
      invariant length > 0 ==> Outside(unsafeInterval, kappa, rest) && length < buffer.Length
      invariant length == 0 ==> length < buffer.Length
      decreases kappa
    {
      ghost var before, digit := rest, 0;
      integrals, digit := IntegralDigit(buffer, length, one, integrals, divisor, fractionals, tooHigh, n, kappa);
      length := length + 1;
      kappa := kappa - 1;
      var remaining := Join(integrals, one, fractionals);
      n, rest := 10 * n + digit, remaining;
      if remaining < unsafeInterval {
        ok, d := WeedIntegral(buffer, length, low.f, w.f, high.f, one, kappa, unsafeInterval, remaining, divisor, n, before, digit);
        return;
      }
      StillOutside(unsafeInterval, kappa, rest);
      HoldsLower(buffer[..length], n);
      RoomLeft(tooHigh, one, n, kappa, rest, unsafeInterval, length, buffer.Length);
      if kappa > 0 {
        NextDivisor(kappa, divisor, one);
      }
      divisor := divisor / 10;
    }
    ok, length, kappa, n, rest, d := FractionalDigits(low.f, w.f, high.f, one, fractionals, unsafeInterval, buffer, length, n);
  }
}
