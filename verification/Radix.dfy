/** Reading integers in radix 2, 4, 8, 16 and 32 (double-conversion.cc). */
module Radices {
  import opened Arithmetic
  import opened Decimals
  import opened DiyFps
  import opened Ieee
  import opened Intervals

  /** isDigit, for a radix of 2^k: letters count where the radix exceeds ten. */
  predicate IsRadixDigit(c: char, k: nat) {
    DigitIn(c, k).Some?
  }

  datatype Option = None | Some(digit: nat)

  function DigitIn(c: char, k: nat): (r: Option)
    ensures r.Some? ==> r.digit < Pow(2, k)
  {
    var radix := Pow(2, k);
    if IsDigit(c) && Digit(c) < radix then Some(Digit(c))
    else if radix > 10 && 'a' <= c && c as int < 'a' as int + radix - 10 then Some(c as int - 'a' as int + 10)
    else if radix > 10 && 'A' <= c && c as int < 'A' as int + radix - 10 then Some(c as int - 'A' as int + 10)
    else None
  }

  /** The digits' values: their places in these rows, as far as the radix goes; other characters are no digits. */
  const LOWER_CASE: string := "0123456789abcdefghijklmnopqrstuv"
  const UPPER_CASE: string := "0123456789ABCDEFGHIJKLMNOPQRSTUV"

  predicate Writes(c: char, v: nat) {
    v < 32 && (LOWER_CASE[v] == c || UPPER_CASE[v] == c)
  }

  lemma DigitValues(c: char, k: nat, v: nat)
    requires k <= 5
    ensures DigitIn(c, k) == Some(v) <==> v < Pow(2, k) && Writes(c, v)
  {
    hide Pow;
    PowMonotone(2, k, 5);
    TwoTo5();
    if v < 32 {
      LowerCase(v);
      UpperCase(v);
    }
  }

  lemma LowerCase(v: nat)
    requires v < 32
    ensures LOWER_CASE[v] as int == if v < 10 then '0' as int + v else 'a' as int + v - 10
  {
    var t := "0123456789abcdefghijklmnopqrstuv";
    assert t[0] == '0' && t[1] == '1' && t[2] == '2' && t[3] == '3' && t[4] == '4' && t[5] == '5' && t[6] == '6' && t[7] == '7';
    assert t[8] == '8' && t[9] == '9' && t[10] == 'a' && t[11] == 'b' && t[12] == 'c' && t[13] == 'd' && t[14] == 'e' && t[15] == 'f';
    assert t[16] == 'g' && t[17] == 'h' && t[18] == 'i' && t[19] == 'j' && t[20] == 'k' && t[21] == 'l' && t[22] == 'm' && t[23] == 'n';
    assert t[24] == 'o' && t[25] == 'p' && t[26] == 'q' && t[27] == 'r' && t[28] == 's' && t[29] == 't' && t[30] == 'u' && t[31] == 'v';
  }

  lemma UpperCase(v: nat)
    requires v < 32
    ensures UPPER_CASE[v] as int == if v < 10 then '0' as int + v else 'A' as int + v - 10
  {
    var t := "0123456789ABCDEFGHIJKLMNOPQRSTUV";
    assert t[0] == '0' && t[1] == '1' && t[2] == '2' && t[3] == '3' && t[4] == '4' && t[5] == '5' && t[6] == '6' && t[7] == '7';
    assert t[8] == '8' && t[9] == '9' && t[10] == 'A' && t[11] == 'B' && t[12] == 'C' && t[13] == 'D' && t[14] == 'E' && t[15] == 'F';
    assert t[16] == 'G' && t[17] == 'H' && t[18] == 'I' && t[19] == 'J' && t[20] == 'K' && t[21] == 'L' && t[22] == 'M' && t[23] == 'N';
    assert t[24] == 'O' && t[25] == 'P' && t[26] == 'Q' && t[27] == 'R' && t[28] == 'S' && t[29] == 'T' && t[30] == 'U' && t[31] == 'V';
  }

  predicate AllRadix(s: string, k: nat) {
    forall i :: 0 <= i < |s| ==> IsRadixDigit(s[i], k)
  }

  /** The integer written by the digits of s in radix 2^k. */
  function RadixValue(s: string, k: nat): nat
    requires AllRadix(s, k)
  {
    if s == [] then 0 else Pow(2, k) * RadixValue(s[..|s| - 1], k) + DigitIn(s[|s| - 1], k).digit
  }

  lemma RadixAppend(s: string, c: char, k: nat)
    requires AllRadix(s, k) && IsRadixDigit(c, k)
    ensures AllRadix(s + [c], k) && RadixValue(s + [c], k) == Pow(2, k) * RadixValue(s, k) + DigitIn(c, k).digit
  {
    assert (s + [c])[..|s|] == s;
  }

  lemma {:induction false} RadixConcat(s: string, t: string, k: nat)
    requires AllRadix(s, k) && AllRadix(t, k)
    ensures AllRadix(s + t, k) && RadixValue(s + t, k) == RadixValue(s, k) * Pow(2, k * |t|) + RadixValue(t, k)
  {
    hide Pow, RadixValue;
    if t == [] {
      assert s + t == s && k * |t| == 0;
      One();
      NoRadixDigits(k);
    } else {
      var t' := t[..|t| - 1];
      RadixConcat(s, t', k);
      assert s + t == s + t' + [t[|t| - 1]] && t == t' + [t[|t| - 1]];
      RadixAppend(s + t', t[|t| - 1], k);
      RadixAppend(t', t[|t| - 1], k);
      PlaceUp(k, |t'|);
      Regather(RadixValue(s, k), Pow(2, k * |t'|), Pow(2, k), RadixValue(t', k));
    }
  }

  lemma NoRadixDigits(k: nat)
    ensures RadixValue([], k) == 0
  {
  }

  lemma PlaceUp(k: nat, n: nat)
    ensures Pow(2, k * (n + 1)) == Pow(2, k) * Pow(2, k * n)
  {
    assert k * (n + 1) == k + k * n;
    PowAdd(2, k, k * n);
  }

  lemma Regather(a: nat, p: nat, r: nat, b: nat)
    ensures r * (a * p + b) == a * (r * p) + r * b
  {
    assert r * (a * p) == a * (r * p);
  }

  lemma {:induction false} RadixBound(s: string, k: nat)
    requires AllRadix(s, k)
    ensures RadixValue(s, k) < Pow(2, k * |s|)
    ensures (forall i :: 0 <= i < |s| ==> s[i] == '0') ==> RadixValue(s, k) == 0
    ensures (exists i :: 0 <= i < |s| && s[i] != '0') ==> RadixValue(s, k) > 0
  {
    hide Pow;
    if s == [] {
      One();
    } else {
      var s' := s[..|s| - 1];
      RadixBound(s', k);
      PlaceUp(k, |s'|);
      BelowNext(RadixValue(s', k), Pow(2, k * |s'|), Pow(2, k), DigitIn(s[|s| - 1], k).digit);
      if s[|s| - 1] != '0' {
        NonZeroDigit(s[|s| - 1], k);
      }
      if i :| 0 <= i < |s'| && s'[i] != '0' {
        MulMonotone(1, RadixValue(s', k), Pow(2, k));
      }
    }
  }

  lemma NonZeroDigit(c: char, k: nat)
    requires IsRadixDigit(c, k) && c != '0'
    ensures DigitIn(c, k).digit > 0
  {
  }

  lemma BelowNext(v: nat, p: nat, r: nat, d: nat)
    requires v < p && d < r
    ensures r * v + d < r * p
    ensures v > 0 ==> r * v > 0
  {
    MulMonotone(v + 1, p, r);
    Distribute(v, 1, r);
    if v > 0 {
      MulStrict(0, v, r);
    }
  }

  /** The digits at the head of a text. */
  function RunOf(s: string, k: nat): (r: string)
    ensures AllRadix(r, k) && r <= s && (|r| < |s| ==> !IsRadixDigit(s[|r|], k))
  {
    if s == [] || !IsRadixDigit(s[0], k) then [] else [s[0]] + RunOf(s[1..], k)
  }

  lemma {:induction false} RunIs(s: string, k: nat, n: nat)
    requires n <= |s| && AllRadix(s[..n], k) && (n < |s| ==> !IsRadixDigit(s[n], k))
    ensures RunOf(s, k) == s[..n]
  {
    hide IsRadixDigit;
    if n > 0 {
      assert s[..n][0] == s[0];
      assert s[1..][..n - 1] == s[..n][1..];
      RunIs(s[1..], k, n - 1);
      assert s[..n] == [s[0]] + s[1..][..n - 1];
    } else if s != [] {
      assert !IsRadixDigit(s[0], k);
    }
  }

  // ----- Rounding -----

  /** v / 2^bits rounded to the nearest integer, the even one in the middle. */
  ghost function NearestEven(v: nat, bits: nat): nat {
    var p: nat := Pow(2, bits);
    var q, r := v / p, v % p;
    if 2 * r > p || (2 * r == p && q % 2 == 1) then q + 1 else q
  }

  /** number * 2^exponent is v rounded to nearest, ties to even, at the given number of significant bits. */
  ghost predicate RoundsAt(size: nat, v: nat, number: nat, exponent: nat) {
    if v < Pow(2, size) then number == v && exponent == 0
    else exists bits: nat :: RoundsDropping(size, v, bits, number, exponent)
  }

  ghost predicate RoundsDropping(size: nat, v: nat, bits: nat, number: nat, exponent: nat) {
    && bits > 0 && size > 0 && Pow(2, size - 1 + bits) <= v < Pow(2, size + bits)
    && var n := NearestEven(v, bits);
       if n == Pow(2, size) then number == Pow(2, size - 1) && exponent == bits + 1 else number == n && exponent == bits
  }

  datatype Outcome = Junk | Read(number: nat, exponent: nat)

  method AdvanceToNonspace(text: string, from: nat) returns (found: bool, current: nat)
    requires from <= |text|
    ensures from <= current <= |text| && (found <==> current < |text|)
    ensures found <==> exists i :: from <= i < |text| && text[i] != ' '
  {
    current := from;
    while current < |text|
      invariant from <= current <= |text| && forall i :: from <= i < current ==> text[i] == ' '
    {
      if text[current] != ' ' {
        return true, current;
      }
      current := current + 1;
    }
    found := false;
  }

  /** Only spaces follow the digits, or what follows does not matter. */
  predicate Clean(text: string, from: nat, allowTrailingJunk: bool) {
    allowTrailingJunk || forall i :: from <= i < |text| ==> text[i] == ' '
  }

  /** How many bits stick out at the top. */
  method OverflowBits(overflow0: nat) returns (count: nat)
    requires overflow0 > 0
    ensures count > 0 && Pow(2, count - 1) <= overflow0 < Pow(2, count)
  {
    var overflow: nat := overflow0;
    count := 1;
    One();
    while overflow > 1
      invariant count > 0 && overflow > 0
      invariant overflow * Pow(2, count - 1) <= overflow0 < (overflow + 1) * Pow(2, count - 1)
    {
      HalfOverflow(overflow, overflow0, Pow(2, count - 1));
      count := count + 1;
      overflow := overflow / 2;
    }
    assert Pow(2, count) == 2 * Pow(2, count - 1);
  }

  lemma HalfOverflow(overflow: nat, overflow0: nat, p: nat)
    requires overflow * p <= overflow0 < (overflow + 1) * p
    ensures overflow / 2 * (2 * p) <= overflow0 < (overflow / 2 + 1) * (2 * p)
  {
    var h := overflow / 2;
    MulMonotone(2 * h, overflow, p);
    MulMonotone(overflow + 1, 2 * h + 2, p);
    assert h * (2 * p) == 2 * h * p && (h + 1) * (2 * p) == (2 * h + 2) * p;
  }

  /** The digits that no longer fit count for the exponent; otherwise only whether they are all zeros matters. */
  method SkipTail(text: string, k: nat, from: nat) returns (end: nat, zeroTail: bool, bits: nat)
    requires from <= |text|
    ensures from <= end <= |text| && AllRadix(text[from..end], k) && (end < |text| ==> !IsRadixDigit(text[end], k))
    ensures zeroTail <==> RadixValue(text[from..end], k) == 0
    ensures bits == k * (end - from) && RadixValue(text[from..end], k) < Pow(2, bits)
  {
    hide RadixValue, Pow, IsRadixDigit;
    end := from;
    zeroTail := true;
    bits := 0;
    while end < |text| && IsRadixDigit(text[end], k)
      invariant from <= end <= |text| && AllRadix(text[from..end], k) && bits == k * (end - from)
      invariant zeroTail <==> forall i :: from <= i < end ==> text[i] == '0'
    {
      assert text[from..end + 1] == text[from..end] + [text[end]];
      zeroTail := zeroTail && text[end] == '0';
      OneMore(k, end - from);
      end := end + 1;
      bits := bits + k;
    }
    RadixBound(text[from..end], k);
    if !zeroTail {
      var i :| from <= i < end && text[i] != '0';
      assert text[from..end][i - from] != '0';
    }
  }

  lemma OneMore(k: nat, n: nat)
    ensures k * (n + 1) == k * n + k
  {
  }

  /** The decision made from the dropped bits of the head and from whether the tail is zero. */
  function Decided(number: nat, count: nat, zeroTail: bool): nat
    requires count > 0
  {
    var q, dropped, middle := number / Pow(2, count), number % Pow(2, count), Pow(2, count - 1);
    if dropped > middle || (dropped == middle && (q % 2 != 0 || !zeroTail)) then q + 1 else q
  }

  /** The head that is kept, its dropped bits and the tail decide as the whole number does. */
  lemma HeadDecides(number: nat, tail: nat, count: nat, places: nat, v: nat)
    requires tail < Pow(2, places) && v == number * Pow(2, places) + tail && count > 0
    ensures NearestEven(v, count + places) == Decided(number, count, tail == 0)
  {
    hide Pow;
    PowAdd(2, count, places);
    HalfOf(count);
    DecidedAt(number, tail, Pow(2, count), Pow(2, places), Pow(2, count - 1), v, Pow(2, count + places));
  }

  lemma DecidedAt(number: nat, tail: nat, p: nat, s: nat, m: nat, v: nat, ps: nat)
    requires p > 0 && s > 0 && p == 2 * m && tail < s && v == number * s + tail && ps == p * s > 0
    ensures v / ps == number / p
    ensures 2 * (v % ps) > ps <==> number % p > m || (number % p == m && tail > 0)
    ensures 2 * (v % ps) == ps <==> number % p == m && tail == 0
  {
    QuotientAt(number, tail, p, s, v, ps);
    TailDecides(number % p, m, tail, s, p, ps);
  }

  lemma QuotientAt(number: nat, tail: nat, p: nat, s: nat, v: nat, ps: nat)
    requires p > 0 && s > 0 && tail < s && v == number * s + tail && ps == p * s > 0
    ensures v / ps == number / p && v % ps == number % p * s + tail
  {
    SplitWhole(number, tail, p, s, number / p, number % p);
    DivIs(v, ps, number / p, number % p * s + tail);
  }

  lemma SplitWhole(number: nat, tail: nat, p: nat, s: nat, q: nat, dropped: nat)
    requires p > 0 && s > 0 && number == q * p + dropped && dropped < p && tail < s
    ensures number * s + tail == q * (p * s) + (dropped * s + tail) && dropped * s + tail < p * s
  {
    Distribute(q * p, dropped, s);
    Associate(q, p, s);
    MulMonotone(dropped + 1, p, s);
    Distribute(dropped, 1, s);
  }

  lemma TailDecides(dropped: nat, m: nat, tail: nat, s: nat, p: nat, ps: nat)
    requires tail < s && p == 2 * m && ps == p * s
    ensures 2 * (dropped * s + tail) > ps <==> dropped > m || (dropped == m && tail > 0)
    ensures 2 * (dropped * s + tail) == ps <==> dropped == m && tail == 0
  {
    Associate(2, m, s);
    if dropped > m {
      MulMonotone(m + 1, dropped, s);
      Distribute(m, 1, s);
    } else if dropped < m {
      MulMonotone(dropped + 1, m, s);
      Distribute(dropped, 1, s);
    }
  }

  /** Where the leading bits of v stand. */
  lemma BitsOfWhole(number: nat, tail: nat, size: nat, count: nat, places: nat, v: nat)
    requires tail < Pow(2, places) && v == number * Pow(2, places) + tail && count > 0 && size > 0
    requires Pow(2, count - 1) <= number / Pow(2, size) < Pow(2, count)
    ensures Pow(2, size - 1 + count + places) <= v < Pow(2, size + count + places)
  {
    hide Pow;
    var top: nat, s: nat := Pow(2, size), Pow(2, places);
    PowAdd(2, count - 1, size);
    PowAdd(2, count, size);
    PowAdd(2, count - 1 + size, places);
    PowAdd(2, count + size, places);
    var o := number / top;
    MulMonotone(Pow(2, count - 1), o, top);
    MulMonotone(o + 1, Pow(2, count), top);
    Distribute(o, 1, top);
    MulMonotone(Pow(2, count - 1 + size), number, s);
    MulMonotone(number + 1, Pow(2, count + size), s);
    Distribute(number, 1, s);
  }

  /** Rounding may carry to the next power of two, never further. */
  lemma RoundedFits(v: nat, bits: nat, size: nat)
    requires v < Pow(2, size + bits)
    ensures NearestEven(v, bits) <= Pow(2, size)
  {
    hide Pow;
    PowAdd(2, size, bits);
    var p: nat := Pow(2, bits);
    var q := v / p;
    if q >= Pow(2, size) {
      MulMonotone(Pow(2, size), q, p);
    }
  }

  /** What is left once the carry is taken care of. */
  lemma LongRounds(number: nat, tail: nat, size: nat, count: nat, places: nat, v: nat)
    requires tail < Pow(2, places) && v == number * Pow(2, places) + tail && count > 0 && size > 0
    requires Pow(2, count - 1) <= number / Pow(2, size) < Pow(2, count)
    ensures var n := Decided(number, count, tail == 0);
            && n <= Pow(2, size)
            && RoundsAt(size, v, if n == Pow(2, size) then n / 2 else n, if n == Pow(2, size) then count + places + 1 else count + places)
  {
    hide Pow, NearestEven, Decided;
    HeadDecides(number, tail, count, places, v);
    BitsOfWhole(number, tail, size, count, places, v);
    RoundedFits(v, count + places, size);
    HalfOf(size);
    PowMonotone(2, size, size - 1 + count + places);
    var n := Decided(number, count, tail == 0);
    assert RoundsDropping(size, v, count + places, if n == Pow(2, size) then n / 2 else n,
                          if n == Pow(2, size) then count + places + 1 else count + places);
  }

  /** The number is too long: it is cut to size bits and rounded, once all its digits are seen. */
  method RoundLong(text: string, k: nat, size: nat, current: nat, number0: nat) returns (number: nat, exponent: nat, end: nat)
    requires current < |text| && size > 0 && AllRadix(text[..current + 1], k)
    requires number0 == RadixValue(text[..current + 1], k) >= Pow(2, size)
    ensures current < end <= |text| && text[..end] == RunOf(text, k)
    ensures RoundsAt(size, RadixValue(RunOf(text, k), k), number, exponent)
  {
    hide RadixValue, Pow, RunOf, IsRadixDigit, RoundsAt, AllRadix, Decided;
    var overflow := number0 / Pow(2, size);
    assert overflow > 0 by { Quotient(number0, Pow(2, size)); }
    var overflowBitsCount := OverflowBits(overflow);
    var zeroTail: bool, tailBits: nat;
    end, zeroTail, tailBits := SkipTail(text, k, current + 1);
    WholeValue(text, k, current + 1, end, tailBits);
    LongRounds(number0, RadixValue(text[current + 1..end], k), size, overflowBitsCount, tailBits, RadixValue(RunOf(text, k), k));
    number, exponent := Round(number0, size, overflowBitsCount, zeroTail, overflowBitsCount + tailBits);
  }

  /** The dropped bits decide, and a carry out of the top makes the number one bit shorter again. */
  method Round(number0: nat, size: nat, overflowBitsCount: nat, zeroTail: bool, exponent0: nat) returns (number: nat, exponent: nat)
    requires overflowBitsCount > 0 && Decided(number0, overflowBitsCount, zeroTail) <= Pow(2, size)
    ensures var n := Decided(number0, overflowBitsCount, zeroTail);
            if n == Pow(2, size) then number == n / 2 && exponent == exponent0 + 1 else number == n && exponent == exponent0
  {
    hide Pow;
    exponent := exponent0;
    var middleValue := Pow(2, overflowBitsCount - 1);
    var droppedBits := number0 % Pow(2, overflowBitsCount);
    number := number0 / Pow(2, overflowBitsCount);
    if droppedBits > middleValue {
      number := number + 1;
    } else if droppedBits == middleValue && (number % 2 != 0 || !zeroTail) {
      number := number + 1;
    }
    BitAt(number, Pow(2, size));
    if number / Pow(2, size) % 2 != 0 {
      exponent := exponent + 1;
      number := number / 2;
    }
  }

  lemma BitAt(n: nat, p: nat)
    requires n <= p && p > 0
    ensures n / p % 2 != 0 <==> n == p
  {
    if n == p {
      DivIs(n, p, 1, 0);
    } else {
      DivIs(n, p, 0, n);
    }
  }

  /** The run of digits is the head and the tail. */
  lemma WholeValue(text: string, k: nat, middle: nat, end: nat, bits: nat)
    requires middle <= end <= |text| && AllRadix(text[..middle], k) && AllRadix(text[middle..end], k)
    requires (end < |text| ==> !IsRadixDigit(text[end], k)) && bits == k * (end - middle)
    ensures text[..end] == RunOf(text, k)
    ensures RadixValue(RunOf(text, k), k) == RadixValue(text[..middle], k) * Pow(2, bits) + RadixValue(text[middle..end], k)
  {
    hide RadixValue, Pow, RunOf, IsRadixDigit;
    assert text[..end] == text[..middle] + text[middle..end];
    RadixConcat(text[..middle], text[middle..end], k);
    RunIs(text, k, end);
  }

  lemma Quotient(x: nat, p: nat)
    requires x >= p > 0
    ensures x / p > 0
  {
    MulCancel(1, x / p, p);
  }

  lemma {:induction false} ZerosAreDigits(s: string, k: nat, n: nat)
    requires n <= |s| && k > 0 && forall i :: 0 <= i < n ==> s[i] == '0'
    ensures AllRadix(s[..n], k) && RadixValue(s[..n], k) == 0
  {
    hide RadixValue, Pow;
    ZeroIsADigit(k);
    RadixBound(s[..n], k);
  }

  lemma ZeroIsADigit(k: nat)
    requires k > 0
    ensures IsRadixDigit('0', k)
  {
    One();
    PowMonotone(2, 1, k);
  }

  /** One more digit: no 64-bit word wraps. */
  lemma DigitFits(number: nat, size: nat, k: nat, digit: nat)
    requires number < Pow(2, size) && size <= 53 && 1 <= k <= 5 && digit < Pow(2, k)
    ensures Pow(2, k) * number + digit < 0x8000_0000_0000_0000
  {
    hide Pow;
    PowMonotone(2, size, 53);
    PowMonotone(2, k, 5);
    BelowNext(number, Pow(2, size), Pow(2, k), digit);
    PowAdd(2, k, size);
    PowMonotone(2, k + size, 63);
    HalfOf(64);
    TwoTo64();
  }

  /** An integer in radix 2^k, of any length, to the given number of significant bits; only spaces may follow it, or
      anything where junk is allowed. */
  method RadixStringToIeee(text: string, k: nat, size: nat, allowTrailingJunk: bool) returns (r: Outcome, trailing: nat)
    requires 0 < |text| && 1 <= k <= 5 && (size == 53 || size == 24)
    ensures var run := RunOf(text, k);
            if !Clean(text, |run|, allowTrailingJunk) then r == Junk
            else
              && r.Read? && RoundsAt(size, RadixValue(run, k), r.number, r.exponent)
              && trailing == if allowTrailingJunk then |run| else |text|
  {
    hide RadixValue, Pow, RunOf, IsRadixDigit, RoundsAt, AllRadix;
    var current := 0;
    while current < |text| && text[current] == '0'
      invariant current <= |text| && forall i :: 0 <= i < current ==> text[i] == '0'
    {
      current := current + 1;
    }
    ZerosAreDigits(text, k, current);
    var number: nat := 0;
    while current < |text|
      invariant current <= |text| && AllRadix(text[..current], k)
      invariant number == RadixValue(text[..current], k) < Pow(2, size)
    {
      var digit := DigitIn(text[current], k);
      if digit.None? {
        RunEnds(text, k, current);
        ShortIsExact(size, number);
        if allowTrailingJunk {
          return Read(number, 0), current;
        }
        var found, end := AdvanceToNonspace(text, current);
        if found {
          return Junk, 0;
        }
        return Read(number, 0), end;
      }
      RunGoesOn(text, k, current);
      DigitFits(number, size, k, digit.digit);
      number := Pow(2, k) * number + digit.digit;
      if number / Pow(2, size) != 0 {
        QuotientZero(number, Pow(2, size));
        r, trailing := FinishLong(text, k, size, allowTrailingJunk, current, number);
        return;
      }
      QuotientZero(number, Pow(2, size));
      current := current + 1;
    }
    RunEnds(text, k, current);
    ShortIsExact(size, number);
    return Read(number, 0), current;
  }

  method FinishLong(text: string, k: nat, size: nat, allowTrailingJunk: bool, current: nat, number0: nat)
      returns (r: Outcome, trailing: nat)
    requires current < |text| && size > 0 && AllRadix(text[..current + 1], k)
    requires number0 == RadixValue(text[..current + 1], k) >= Pow(2, size)
    ensures var run := RunOf(text, k);
            if !Clean(text, |run|, allowTrailingJunk) then r == Junk
            else
              && r.Read? && RoundsAt(size, RadixValue(run, k), r.number, r.exponent)
              && trailing == if allowTrailingJunk then |run| else |text|
  {
    hide RadixValue, Pow, RunOf, IsRadixDigit, RoundsAt, AllRadix;
    var number, exponent, end := RoundLong(text, k, size, current, number0);
    if !allowTrailingJunk {
      var found, after := AdvanceToNonspace(text, end);
      if found {
        return Junk, 0;
      }
      end := after;
    }
    return Read(number, exponent), end;
  }

  lemma QuotientZero(x: nat, p: nat)
    requires p > 0
    ensures x / p != 0 <==> x >= p
  {
    if x >= p {
      Quotient(x, p);
    } else {
      DivIs(x, p, 0, x);
    }
  }

  lemma ShortIsExact(size: nat, number: nat)
    requires number < Pow(2, size)
    ensures RoundsAt(size, number, number, 0)
  {
  }

  lemma RunEnds(text: string, k: nat, n: nat)
    requires n <= |text| && AllRadix(text[..n], k) && (n < |text| ==> DigitIn(text[n], k).None?)
    ensures RunOf(text, k) == text[..n]
  {
    RunIs(text, k, n);
  }

  lemma RunGoesOn(text: string, k: nat, n: nat)
    requires n < |text| && AllRadix(text[..n], k) && DigitIn(text[n], k).Some?
    ensures AllRadix(text[..n + 1], k)
    ensures RadixValue(text[..n + 1], k) == Pow(2, k) * RadixValue(text[..n], k) + DigitIn(text[n], k).digit
  {
    hide RadixValue;
    assert text[..n + 1] == text[..n] + [text[n]];
    RadixAppend(text[..n], text[n], k);
  }

  // ----- The double -----

  /** Rounded at 53 bits, the double lies where the rules of rounding put it. */
  lemma {:induction false} Neighbours(v: nat, number: nat, exponent: nat)
    requires RoundsAt(53, v, number, exponent) && exponent > 0
    ensures HIDDEN_BIT <= number < 2 * HIDDEN_BIT
    ensures 4 * v <= (4 * number + 2) * Pow(2, exponent)
    ensures 4 * v == (4 * number + 2) * Pow(2, exponent) ==> number % 2 == 0
    ensures var below := if number == HIDDEN_BIT then 1 else 2;
            && 4 * v >= (4 * number - below) * Pow(2, exponent)
            && (4 * v == (4 * number - below) * Pow(2, exponent) ==> number % 2 == 0)
  {
    hide Pow;
    TwoTo53();
    One();
    var bits: nat :| RoundsDropping(53, v, bits, number, exponent);
    var p: nat := Pow(2, bits);
    PowAdd(2, 53 - 1, bits);
    PowAdd(2, 53, bits);
    PowAdd(2, 1, bits);
    NearestSides(v, bits, p);
    AroundNumber(v, NearestEven(v, bits), number, p, Pow(2, exponent));
  }

  lemma TwoTo53()
    ensures Pow(2, 53 - 1) == HIDDEN_BIT && Pow(2, 53) == 2 * HIDDEN_BIT
  {
    hide Pow;
    TwoTo64();
    assert Pow(2, 5) == 32 && Pow(2, 4) == 16 by { TwoTo5(); }
    PowAdd(2, 32, 16);
    PowAdd(2, 48, 4);
    PowAdd(2, 48, 5);
  }

  lemma TwoTo5()
    ensures Pow(2, 4) == 16 && Pow(2, 5) == 32
  {
  }

  lemma NearestSides(v: nat, bits: nat, p: nat)
    requires p == Pow(2, bits)
    ensures var n := NearestEven(v, bits);
            && (2 * n - 1) * p <= 2 * v <= (2 * n + 1) * p
            && (2 * v == (2 * n + 1) * p || 2 * v == (2 * n - 1) * p ==> n % 2 == 0)
            && (v >= HIDDEN_BIT * p ==> n >= HIDDEN_BIT)
  {
    hide Pow;
    EvenSides(v, p, v / p, v % p, NearestEven(v, bits));
  }

  lemma EvenSides(v: nat, p: nat, q: int, r: int, n: int)
    requires v == q * p + r && 0 <= r < p
    requires n == if 2 * r > p || (2 * r == p && q % 2 == 1) then q + 1 else q
    ensures (2 * n - 1) * p <= 2 * v <= (2 * n + 1) * p
    ensures 2 * v == (2 * n + 1) * p || 2 * v == (2 * n - 1) * p ==> n % 2 == 0
    ensures v >= HIDDEN_BIT * p ==> n >= HIDDEN_BIT
  {
    OddMultiple(q, -1, p);
    OddMultiple(q, 1, p);
    OddMultiple(q, 3, p);
    LargeQuotient(v, q, p);
  }

  lemma OddMultiple(q: int, k: int, p: nat)
    ensures (2 * q + k) * p == 2 * (q * p) + k * p
  {
  }

  lemma LargeQuotient(v: nat, q: int, p: nat)
    requires v < q * p + p
    ensures v >= HIDDEN_BIT * p ==> q >= HIDDEN_BIT
  {
    if v >= HIDDEN_BIT * p {
      Distribute(q, 1, p);
      MulCancel(HIDDEN_BIT, q + 1, p);
    }
  }

  /** The neighbours' halves, with and without a carry. */
  lemma AroundNumber(v: nat, n: nat, number: nat, p: nat, px: nat)
    requires p > 0 && HIDDEN_BIT * p <= v < 2 * HIDDEN_BIT * p && HIDDEN_BIT <= n
    requires (2 * n - 1) * p <= 2 * v <= (2 * n + 1) * p
    requires 2 * v == (2 * n + 1) * p || 2 * v == (2 * n - 1) * p ==> n % 2 == 0
    requires if n == 2 * HIDDEN_BIT then number == HIDDEN_BIT && px == 2 * p else number == n && px == p
    ensures number < 2 * HIDDEN_BIT
    ensures 4 * v <= (4 * number + 2) * px && (4 * v == (4 * number + 2) * px ==> number % 2 == 0)
    ensures var below := if number == HIDDEN_BIT then 1 else 2;
            4 * v >= (4 * number - below) * px && (4 * v == (4 * number - below) * px ==> number % 2 == 0)
  {
    assert (2 * n - 1) * p == 2 * (n * p) - p && (2 * n + 1) * p == 2 * (n * p) + p;
    var np := n * p;
    if n == 2 * HIDDEN_BIT {
      assert (4 * number + 2) * px == 4 * np + 4 * p;
      assert (4 * number - 1) * px == 4 * np - 2 * p;
    } else {
      MulCancel(2 * n - 1, 4 * HIDDEN_BIT, p);
      assert 2 * n - 1 < 4 * HIDDEN_BIT;
      assert (4 * number + 2) * px == 4 * np + 2 * p && (4 * number - 2) * px == 4 * np - 2 * p && (4 * number - 1) * px == 4 * np - p;
    }
  }

  /** What Double(DiyFp) makes of a number and an exponent. */
  ghost predicate IsDouble(d: Double, number: nat, exponent: nat) {
    if exponent >= MAX_EXPONENT then d == INFINITY else d < INFINITY && Units(d) == number * Pow(2, exponent + 1074)
  }

  lemma CompareAt(v: nat, k: nat)
    ensures Compare(v, 0, k) == v * Pow(2, 1075) - k
  {
    hide Pow;
    One();
  }

  lemma Scaled(v: nat, f: int, exponent: nat, s: nat)
    requires s >= 0 && f >= 0
    ensures v * Pow(2, 1075) == 4 * v * Pow(2, 1073)
    ensures f * Pow(2, exponent + 1073) == f * Pow(2, exponent) * Pow(2, 1073)
    ensures Pow(2, 1073) > 0
  {
    hide Pow;
    PowAdd(2, 1073, 2);
    assert Pow(2, 2) == 4 by { Four(); }
    PowAdd(2, exponent, 1073);
    Associate(f, Pow(2, exponent), Pow(2, 1073));
    Associate(v, 4, Pow(2, 1073));
  }

  lemma Four()
    ensures Pow(2, 2) == 4
  {
  }

  /** The pattern of a normal double. */
  lemma NormalIs(d: Double, number: nat, exponent: nat)
    requires HIDDEN_BIT <= number < 2 * HIDDEN_BIT && 0 < exponent < MAX_EXPONENT
    requires d < INFINITY && Units(d) == number * Pow(2, exponent + 1074)
    ensures Significand(d) == number && Exponent(d) == exponent && d > 0 && d % 2 == number % 2
  {
    hide Pow, Units, Ulp;
    DiyFps.Encode(number, exponent, exponent + 1075);
    var e: Double := number % HIDDEN_BIT + (exponent + 1075) * HIDDEN_BIT;
    if d < e {
      Increasing(d, e);
    } else if e < d {
      Increasing(e, d);
    }
  }

  /** The integer read, of any length, gives the double nearest to it, ties to even; too large a one gives infinity. */
  lemma RadixIsNearest(v: nat, number: nat, exponent: nat, d: Double)
    requires RoundsAt(53, v, number, exponent) && IsDouble(d, number, exponent)
    ensures RoundsTo(d, v, 0)
  {
    hide Pow, Units, Ulp, RoundsAt, Ieee.Compare;
    if exponent == 0 {
      ExactInteger(v, number, d);
    } else if exponent >= MAX_EXPONENT {
      TooLarge(v, number, exponent);
    } else {
      Neighbours(v, number, exponent);
      NormalIs(d, number, exponent);
      UpperBoundary(d);
      LowerBoundary(d);
      CompareAt(v, Boundary(d));
      CompareAt(v, Boundary(d - 1));
      NormalSides(v, number, exponent, d);
    }
  }

  lemma NormalSides(v: nat, number: nat, exponent: nat, d: Double)
    requires HIDDEN_BIT <= number && 0 < exponent < MAX_EXPONENT && 0 < d < INFINITY
    requires Significand(d) == number && Exponent(d) == exponent && d % 2 == number % 2
    requires 4 * v <= (4 * number + 2) * Pow(2, exponent) && (4 * v == (4 * number + 2) * Pow(2, exponent) ==> number % 2 == 0)
    requires var below := if number == HIDDEN_BIT then 1 else 2;
             && 4 * v >= (4 * number - below) * Pow(2, exponent)
             && (4 * v == (4 * number - below) * Pow(2, exponent) ==> number % 2 == 0)
    ensures var z, up, low := v * Pow(2, 1075), Boundary(d), Boundary(d - 1);
            z <= up && (z == up ==> d % 2 == 0) && z >= low && (z == low ==> d % 2 == 0)
  {
    hide Pow, Units, Ulp, Boundary;
    var below: nat := if number == HIDDEN_BIT then 1 else 2;
    BoundariesAre(number, exponent, d, below);
    var s: nat := Pow(2, 1073);
    Scaled(v, 4 * number + 2, exponent, 0);
    Scaled(v, 4 * number - below, exponent, 0);
    MulCancel(4 * v, (4 * number + 2) * Pow(2, exponent), s);
    MulCancel((4 * number - below) * Pow(2, exponent), 4 * v, s);
  }

  lemma BoundariesAre(number: nat, exponent: nat, d: Double, below: nat)
    requires HIDDEN_BIT <= number && 0 < exponent < MAX_EXPONENT && 0 < d < INFINITY
    requires Significand(d) == number && Exponent(d) == exponent && below == if number == HIDDEN_BIT then 1 else 2
    ensures Boundary(d) == (4 * number + 2) * Pow(2, exponent + 1073)
    ensures Boundary(d - 1) == (4 * number - below) * Pow(2, exponent + 1073)
  {
    hide Pow, Units, Ulp, Boundary;
    UpperBoundary(d);
    LowerBoundary(d);
    HalfOf(exponent + 1074);
    Halves(number, Pow(2, exponent + 1073));
    assert LowerBoundaryIsCloser(d) <==> number == HIDDEN_BIT;
  }

  lemma Halves(number: nat, p: nat)
    ensures (2 * number + 1) * (2 * p) == (4 * number + 2) * p && (2 * number - 1) * (2 * p) == (4 * number - 2) * p
  {
  }

  lemma ExactInteger(v: nat, number: nat, d: Double)
    requires RoundsAt(53, v, number, 0) && IsDouble(d, number, 0)
    ensures RoundsTo(d, v, 0)
  {
    hide Pow, Units, Ulp, Ieee.Compare;
    assert v == number;
    HalfOf(1075);
    CompareAt(v, Boundary(d));
    Doubled(v, Pow(2, 1074));
    Increasing(d, d + 1);
    if d > 0 {
      Increasing(d - 1, d);
      CompareAt(v, Boundary(d - 1));
    }
  }

  lemma Doubled(v: nat, p: nat)
    ensures v * (2 * p) == 2 * (v * p)
  {
  }

  lemma TooLarge(v: nat, number: nat, exponent: nat)
    requires RoundsAt(53, v, number, exponent) && exponent >= MAX_EXPONENT
    ensures RoundsTo(INFINITY, v, 0)
  {
    hide Pow, Units, Ulp, Ieee.Compare, RoundsAt;
    Neighbours(v, number, exponent);
    var d: Double := INFINITY - 1;
    assert Significand(d) == 2 * HIDDEN_BIT - 1 && Exponent(d) == 971;
    UpperBoundary(d);
    CompareAt(v, Boundary(d));
    HalfOf(972 + 1073);
    PowMonotone(2, 972, exponent);
    var below: nat := if number == HIDDEN_BIT then 1 else 2;
    var f: nat := 4 * HIDDEN_BIT - 1;
    assert f <= 4 * number - below;
    MulMonotone(f, 4 * number - below, Pow(2, exponent));
    MulMonotone(Pow(2, 972), Pow(2, exponent), f);
    Scaled(v, f, 972, 0);
    MulMonotone(f * Pow(2, 972), 4 * v, Pow(2, 1073));
    assert 2 * (2 * HIDDEN_BIT - 1) + 1 == f;
  }

  /** The whole reading of an integer: its digits, cut and rounded, then the double with that value. */
  method ReadRadix(text: string, k: nat, allowTrailingJunk: bool) returns (ok: bool, d: Double, trailing: nat)
    requires 0 < |text| && 1 <= k <= 5
    ensures ok <==> Clean(text, |RunOf(text, k)|, allowTrailingJunk)
    ensures ok ==> RoundsTo(d, RadixValue(RunOf(text, k), k), 0)
  {
    hide RadixValue, Pow, RunOf, Units, RoundsTo;
    var r: Outcome;
    r, trailing := RadixStringToIeee(text, k, 53, allowTrailingJunk);
    if r.Junk? {
      return false, 0, 0;
    }
    ok := true;
    NumberFits(RadixValue(RunOf(text, k), k), r.number, r.exponent);
    d := DiyFpToUint64(r.number, r.exponent);
    RadixIsNearest(RadixValue(RunOf(text, k), k), r.number, r.exponent, d);
  }

  lemma NumberFits(v: nat, number: nat, exponent: nat)
    requires RoundsAt(53, v, number, exponent)
    ensures number < 2 * HIDDEN_BIT
  {
    hide Pow;
    TwoTo53();
    if exponent > 0 {
      Neighbours(v, number, exponent);
    }
  }
}
