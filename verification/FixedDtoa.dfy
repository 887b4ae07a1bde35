/** The fast fixed-point printer on 64- and 128-bit words (fixed-dtoa.cc). */
module FixedDtoas {
  import opened Arithmetic
  import opened Decimals
  import opened CountedDigits
  import opened UInt128s
  import opened Dtoa
  import opened Scaling
  import opened Ieee

  const TWO56: nat := 0x100_0000_0000_0000
  const TEN7: nat := 10_000_000
  const TEN14: nat := 100_000_000_000_000
  const TEN17: nat := 100_000_000_000_000_000
  const FIVE17: nat := 0xB1_A2BC_2EC5

  // ----- Integers -----

  lemma TenTo7()
    ensures Pow(10, 7) == TEN7
  {
  }

  lemma TenTo17()
    ensures Pow(10, 7) == TEN7 && Pow(10, 14) == TEN14 && Pow(10, 17) == TEN17 && Pow(10, 3) == 1000
  {
    hide Pow;
    TenTo7();
    PowAdd(10, 7, 7);
    assert Pow(10, 3) == 1000 by { TenTo3(); }
    PowAdd(10, 14, 3);
  }

  lemma TenTo3()
    ensures Pow(10, 3) == 1000
  {
  }

  /** number in exactly requestedLength digits, written from the last one. */
  method FillDigits32FixedLength(number: nat, requestedLength: nat, buffer: array<char>, length: nat) returns (newLength: nat)
    requires number < Pow(10, requestedLength) && length + requestedLength <= buffer.Length && AllDigits(buffer[..length])
    modifies buffer
    ensures newLength == length + requestedLength && AllDigits(buffer[..newLength])
    ensures DecimalValue(buffer[..newLength]) == DecimalValue(old(buffer[..length])) * Pow(10, requestedLength) + number
    ensures buffer[..length] == old(buffer[..length])
  {
    hide DecimalValue, Pow;
    var rest: nat := number;
    var i := requestedLength;
    ghost var done: nat := 0;
    assert Pow(10, 0) == 1 by { One(); }
    assert buffer[length + i..length + requestedLength] == [];
    NoDigits();
    while i > 0
      invariant 0 <= i <= requestedLength
      invariant rest < Pow(10, i) && done == DecimalValue(buffer[length + i..length + requestedLength])
      invariant number == rest * Pow(10, requestedLength - i) + done
      invariant AllDigits(buffer[length + i..length + requestedLength])
      invariant buffer[..length] == old(buffer[..length])
    {
      i := i - 1;
      ghost var tail := buffer[length + i + 1..length + requestedLength];
      buffer[length + i] := DigitChar(rest % 10);
      assert buffer[length + i..length + requestedLength] == [DigitChar(rest % 10)] + tail;
      FrontDigit(DigitChar(rest % 10), tail);
      PlaceUp(number, rest, Pow(10, requestedLength - i - 1), Pow(10, requestedLength - i), done) by { TenMore(requestedLength - i - 1); }
      FewerDigits(rest, i);
      done := rest % 10 * Pow(10, requestedLength - i - 1) + done;
      rest := rest / 10;
    }
    assert rest == 0 by { One(); }
    newLength := length + requestedLength;
    assert buffer[..newLength] == buffer[..length] + buffer[length..newLength];
    DecimalConcat(buffer[..length], buffer[length..newLength]);
    AllDigitsConcat(buffer[..length], buffer[length..newLength]);
  }

  lemma PlaceUp(number: nat, rest: nat, p: nat, p10: nat, done: nat)
    requires number == rest * p + done && p10 == 10 * p
    ensures number == rest / 10 * p10 + (rest % 10 * p + done)
  {
    assert rest == 10 * (rest / 10) + rest % 10;
    assert (10 * (rest / 10) + rest % 10) * p == 10 * (rest / 10) * p + rest % 10 * p;
    assert 10 * (rest / 10) * p == rest / 10 * (10 * p);
  }

  lemma FewerDigits(rest: nat, i: nat)
    requires rest < Pow(10, i + 1)
    ensures rest / 10 < Pow(10, i)
  {
  }

  function Reversed(s: seq<char>): (r: seq<char>)
    ensures |r| == |s|
    ensures forall k :: 0 <= k < |s| ==> r[k] == s[|s| - 1 - k]
  {
    seq(|s|, k requires 0 <= k < |s| => s[|s| - 1 - k])
  }

  /** The digits of number without leading zeros, filled in reverse order and exchanged afterwards. */
  method FillDigits32(number: nat, buffer: array<char>, length: nat) returns (newLength: nat)
    requires number < Pow(10, 10) && length + 10 <= buffer.Length && AllDigits(buffer[..length])
    modifies buffer
    ensures length <= newLength <= length + 10 && AllDigits(buffer[..newLength])
    ensures DecimalValue(buffer[..newLength]) == DecimalValue(old(buffer[..length])) * Pow(10, newLength - length) + number
    ensures buffer[..length] == old(buffer[..length])
  {
    hide DecimalValue, Pow, AllDigits, Reversed;
    ghost var before := buffer[..length];
    var numberLength := FillReversed(number, buffer, length);
    ghost var digits := buffer[length..length + numberLength];
    Exchange(buffer, length, length + numberLength);
    newLength := length + numberLength;
    Halves(buffer, length, newLength);
    DecimalConcat(before, Reversed(digits));
    AllDigitsConcat(before, Reversed(digits)) by { ReversedDigits(digits); }
  }

  lemma Halves(buffer: array<char>, middle: nat, end: nat)
    requires middle <= end <= buffer.Length
    ensures buffer[..end] == buffer[..middle] + buffer[middle..end]
  {
  }

  lemma ReversedDigits(s: seq<char>)
    requires AllDigits(s)
    ensures AllDigits(Reversed(s)) && |Reversed(s)| == |s|
  {
  }

  method FillReversed(number: nat, buffer: array<char>, length: nat) returns (numberLength: nat)
    requires number < Pow(10, 10) && length + 10 <= buffer.Length
    modifies buffer
    ensures numberLength <= 10 && AllDigits(buffer[length..length + numberLength])
    ensures DecimalValue(Reversed(buffer[length..length + numberLength])) == number
    ensures buffer[..length] == old(buffer[..length])
  {
    hide DecimalValue, Pow;
    var rest: nat := number;
    numberLength := 0;
    ghost var done: nat := 0;
    assert Pow(10, 0) == 1 by { One(); }
    assert Reversed(buffer[length..length]) == [];
    NoDigits();
    while rest != 0
      invariant numberLength <= 10 && rest < Pow(10, 10 - numberLength)
      invariant done == DecimalValue(Reversed(buffer[length..length + numberLength]))
      invariant number == rest * Pow(10, numberLength) + done
      invariant AllDigits(buffer[length..length + numberLength])
      invariant buffer[..length] == old(buffer[..length])
      decreases rest
    {
      var digit := rest % 10;
      ghost var tail := buffer[length..length + numberLength];
      assert numberLength < 10 by { One(); }
      buffer[length + numberLength] := DigitChar(digit);
      assert buffer[length..length + numberLength + 1] == tail + [DigitChar(digit)];
      FrontReversed(DigitChar(digit), tail);
      PlaceUp(number, rest, Pow(10, numberLength), Pow(10, numberLength + 1), done) by { TenMore(numberLength); }
      FewerDigits(rest, 9 - numberLength);
      done := digit * Pow(10, numberLength) + done;
      rest := rest / 10;
      numberLength := numberLength + 1;
    }
  }

  lemma ReversedEnd(c: char, s: seq<char>)
    ensures Reversed(s + [c]) == [c] + Reversed(s)
  {
    var t := s + [c];
    forall k | 0 <= k < |t| ensures Reversed(t)[k] == ([c] + Reversed(s))[k] {
      assert Reversed(t)[k] == t[|s| - k];
    }
  }

  lemma FrontReversed(c: char, s: seq<char>)
    requires IsDigit(c) && AllDigits(s)
    ensures DecimalValue(Reversed(s + [c])) == Digit(c) * Pow(10, |s|) + DecimalValue(Reversed(s))
  {
    hide DecimalValue, Pow;
    ReversedEnd(c, s);
    FrontDigit(c, Reversed(s));
  }

  method Exchange(buffer: array<char>, from: nat, to: nat)
    requires from <= to <= buffer.Length
    modifies buffer
    ensures buffer[from..to] == Reversed(old(buffer[from..to]))
    ensures buffer[..from] == old(buffer[..from])
  {
    ghost var before := buffer[..];
    var i: int, j: int := from, to - 1;
    while i < j
      invariant from <= i <= j + 2 && i + j == from + to - 1
      invariant forall k :: from <= k < i ==> buffer[k] == before[from + to - 1 - k]
      invariant forall k :: j < k < to ==> buffer[k] == before[from + to - 1 - k]
      invariant forall k :: 0 <= k < from || i <= k <= j ==> buffer[k] == before[k]
    {
      var tmp := buffer[i];
      buffer[i] := buffer[j];
      buffer[j] := tmp;
      i := i + 1;
      j := j - 1;
    }
    assert buffer[..from] == before[..from];
    assert before[from..to] == old(buffer[from..to]);
    Mirrored(before, buffer[..], from, to);
    assert buffer[..][from..to] == buffer[from..to];
  }

  lemma Mirrored(before: seq<char>, after: seq<char>, from: nat, to: nat)
    requires from <= to <= |before| == |after|
    requires forall k :: from <= k < to ==> after[k] == before[from + to - 1 - k]
    ensures after[from..to] == Reversed(before[from..to])
  {
    var part := before[from..to];
    forall k | 0 <= k < to - from ensures after[from..to][k] == Reversed(part)[k] {
      assert Reversed(part)[k] == part[|part| - 1 - k] == before[to - 1 - k];
      assert after[from + k] == before[from + to - 1 - (from + k)];
    }
  }

  /** number cut into three parts, printed in 3, 7 and 7 digits. */
  method FillDigits64FixedLength(number: nat, buffer: array<char>, length: nat) returns (newLength: nat)
    requires number < TEN17 && length + 17 <= buffer.Length && AllDigits(buffer[..length])
    modifies buffer
    ensures newLength == length + 17 && AllDigits(buffer[..newLength])
    ensures DecimalValue(buffer[..newLength]) == DecimalValue(old(buffer[..length])) * TEN17 + number
  {
    hide DecimalValue, Pow;
    TenTo17();
    ghost var before := DecimalValue(buffer[..length]);
    var part2 := number % TEN7;
    var rest := number / TEN7;
    var part1 := rest % TEN7;
    var part0 := rest / TEN7;
    newLength := FillDigits32FixedLength(part0, 3, buffer, length);
    newLength := FillDigits32FixedLength(part1, 7, buffer, newLength);
    newLength := FillDigits32FixedLength(part2, 7, buffer, newLength);
  }

  /** The digits of number without leading zeros. */
  method FillDigits64(number: nat, buffer: array<char>, length: nat) returns (newLength: nat)
    requires number < TWO64 && length + 24 <= buffer.Length && AllDigits(buffer[..length]) && length == 0
    modifies buffer
    ensures newLength <= 24 && AllDigits(buffer[..newLength])
    ensures DecimalValue(buffer[..newLength]) == number
  {
    hide DecimalValue, Pow;
    TenTo17();
    assert Pow(10, 10) == 10_000_000_000 by { PowAdd(10, 7, 3); }
    assert buffer[..0] == [];
    NoDigits();
    var part2 := number % TEN7;
    var rest := number / TEN7;
    var part1 := rest % TEN7;
    var part0 := rest / TEN7;
    if part0 != 0 {
      newLength := FillDigits32(part0, buffer, length);
      newLength := FillDigits32FixedLength(part1, 7, buffer, newLength);
      newLength := FillDigits32FixedLength(part2, 7, buffer, newLength);
    } else if part1 != 0 {
      newLength := FillDigits32(part1, buffer, length);
      newLength := FillDigits32FixedLength(part2, 7, buffer, newLength);
    } else {
      newLength := FillDigits32(part2, buffer, length);
    }
  }

  // ----- Fractions -----

  /** What has been printed and what is left: whole / 2^bits = (printed + rest / 2^point) / 10^i. */
  ghost predicate Progress(printed: nat, rest: nat, point: nat, whole: nat, bits: nat, i: nat) {
    point + i == bits && rest < Pow(2, point) && printed * Pow(2, point) + rest == Pow(5, i) * whole
  }

  /** Multiplying by 5 and moving the point by one gives the next digit. */
  lemma NextDigit(printed: nat, rest: nat, point: nat, whole: nat, bits: nat, i: nat, digit: nat, rest': nat)
    requires Progress(printed, rest, point, whole, bits, i) && point > 0
    requires 5 * rest == digit * Pow(2, point - 1) + rest' && rest' < Pow(2, point - 1)
    ensures digit <= 9 && Progress(10 * printed + digit, rest', point - 1, whole, bits, i + 1)
  {
    hide Pow;
    HalfOf(point);
    NextDigitAt(printed, rest, Pow(2, point - 1), Pow(5, i) * whole, digit, rest');
    FiveMore(i, whole);
  }

  lemma NextDigitAt(printed: nat, rest: nat, h: nat, total: nat, digit: nat, rest': nat)
    requires printed * (2 * h) + rest == total && rest < 2 * h && 5 * rest == digit * h + rest' && rest' < h
    ensures digit <= 9 && (10 * printed + digit) * h + rest' == 5 * total
  {
    TenTimes(printed, digit, h);
    MulCancel(digit, 10, h);
  }

  lemma TenTimes(printed: nat, digit: nat, h: nat)
    ensures (10 * printed + digit) * h == 5 * (printed * (2 * h)) + digit * h
  {
  }

  lemma FiveMore(i: nat, whole: nat)
    ensures Pow(5, i + 1) * whole == 5 * (Pow(5, i) * whole)
  {
    var p := Pow(5, i);
    assert 5 * p * whole == 5 * (p * whole);
  }

  /** All digits are printed: the bit after the point tells which way to round. */
  lemma HalfUp(printed: nat, rest: nat, point: nat, whole: nat, bits: nat, count: nat)
    requires Progress(printed, rest, point, whole, bits, count)
    ensures RoundedAt(if 2 * rest >= Pow(2, point) then printed + 1 else printed, whole, Pow(2, bits), count)
  {
    hide Pow, RoundsHalfUp;
    var h: nat, two: nat := Pow(2, point), Pow(2, count);
    PowAdd(2, point, count);
    FiveAndTwo(whole, count);
    var n := if 2 * rest >= h then printed + 1 else printed;
    HalfUpAt(printed, rest, h);
    ScaleHalfUp(n, printed * h + rest, h, two);
  }

  lemma HalfUpAt(printed: nat, rest: nat, h: nat)
    requires rest < h
    ensures RoundsHalfUp(if 2 * rest >= h then printed + 1 else printed, printed * h + rest, h)
  {
    assert (printed + 1) * h == printed * h + h;
  }

  lemma FiveAndTwo(whole: nat, count: nat)
    ensures whole * Pow(10, count) == Pow(5, count) * whole * Pow(2, count)
  {
    PowProduct(5, 2, count);
    var a, b := Pow(5, count), Pow(2, count);
    assert whole * (a * b) == a * whole * b;
  }

  /** A common factor does not matter. */
  lemma ScaleHalfUp(n: int, num: int, den: int, k: nat)
    requires k > 0
    ensures RoundsHalfUp(n, num * k, den * k) <==> RoundsHalfUp(n, num, den)
  {
    var nd := n * den;
    var low, mid, high := 2 * nd, 2 * num + den, 2 * nd + 2 * den;
    Associate(n, den, k);
    ScaledSides(nd, num, den, k);
    MulCancel(low, mid, k);
    MulCancel(mid, high, k);
  }

  lemma ScaledSides(nd: int, num: int, den: int, k: nat)
    ensures 2 * nd * k == 2 * (nd * k) && (2 * num + den) * k == 2 * (num * k) + den * k
    ensures (2 * nd + 2 * den) * k == 2 * (nd * k) + 2 * (den * k)
  {
  }

  /** Nothing is left: the digits printed are exact, and zeros would follow. */
  lemma Exact(printed: nat, point: nat, whole: nat, bits: nat, i: nat, count: nat)
    requires Progress(printed, 0, point, whole, bits, i) && i <= count
    ensures RoundedAt(printed * Pow(10, count - i), whole, Pow(2, bits), count)
  {
    hide Pow, RoundsHalfUp;
    var h: nat, two: nat, more: nat := Pow(2, point), Pow(2, i), Pow(10, count - i);
    PowAdd(2, point, i);
    PowAdd(10, i, count - i);
    FiveAndTwo(whole, i);
    ExactAt(printed, h, two, more, whole, Pow(10, i));
  }

  lemma ExactAt(printed: nat, h: nat, two: nat, more: nat, whole: nat, ten: nat)
    requires whole * ten == printed * h * two && h > 0 && two > 0
    ensures RoundsHalfUp(printed * more, whole * (ten * more), h * two)
  {
    assert whole * (ten * more) == whole * ten * more;
    Interchange(printed, h, two, more);
    MulStrict(0, h, two);
  }

  lemma Interchange(a: nat, h: nat, two: nat, more: nat)
    ensures a * h * two * more == a * more * (h * two)
  {
    var b := h * two;
    assert a * h * two == a * b;
    assert a * b * more == a * more * b;
  }

  /** Three products by five fit whatever the point, and after three of them the point is low enough. */
  predicate FitsAt(rest: nat, i: nat, limit: nat) {
    && (i == 0 ==> rest < limit) && (i == 1 ==> rest < 5 * limit) && (i == 2 ==> rest < 25 * limit)
  }

  lemma FivefoldFits(rest: nat, i: nat, limit: nat, width: nat, point: nat, bits: nat)
    requires FitsAt(rest, i, limit) && 125 * limit <= Pow(2, width) && rest < Pow(2, point)
    requires point + i == bits <= width && width >= 3
    ensures 5 * rest < Pow(2, width)
  {
    hide Pow;
    if i >= 3 {
      PowMonotone(2, point, width - 3);
      PowAdd(2, width - 3, 3);
      SmallPowers(3);
    }
  }

  /** One more digit at the end of the buffer. */
  method Append(buffer: array<char>, length: nat, digit: nat) returns (newLength: nat)
    requires length < buffer.Length && digit <= 9 && AllDigits(buffer[..length])
    modifies buffer
    ensures newLength == length + 1 && AllDigits(buffer[..newLength])
    ensures DecimalValue(buffer[..newLength]) == 10 * DecimalValue(old(buffer[..length])) + digit
  {
    hide DecimalValue;
    ghost var before := buffer[..length];
    buffer[length] := DigitChar(digit);
    newLength := length + 1;
    assert buffer[..newLength] == before + [DigitChar(digit)];
    DecimalAppend(before, DigitChar(digit));
  }

  /** Adds one to the last digit; an empty buffer is zero. */
  method RoundUp(buffer: array<char>, length: nat, decimalPoint: int) returns (newLength: nat, newPoint: int)
    requires length <= buffer.Length && 0 < buffer.Length && AllDigits(buffer[..length])
    modifies buffer
    ensures newLength == Max(length, 1) && AllDigits(buffer[..newLength])
    ensures length == 0 ==> newPoint == 1 && DecimalValue(buffer[..newLength]) == 1
    ensures length > 0 ==>
      && decimalPoint <= newPoint <= decimalPoint + 1
      && DecimalValue(buffer[..newLength]) * Pow(10, newPoint - decimalPoint) == DecimalValue(old(buffer[..length])) + 1
  {
    hide DecimalValue, Pow;
    ghost var before := buffer[..length];
    if length == 0 {
      buffer[0] := '1';
      assert buffer[..1] == [] + ['1'];
      DecimalAppend([], '1');
      NoDigits();
      return 1, 1;
    }
    buffer[length - 1] := buffer[length - 1] + 1 as char;
    LastPlusOne(before, buffer[..length]);
    newPoint := PropagateCarry(length, decimalPoint, buffer);
    newLength := length;
  }

  lemma LastPlusOne(s: seq<char>, t: seq<char>)
    requires |s| > 0 && AllDigits(s) && t == s[|s| - 1 := s[|s| - 1] + 1 as char]
    ensures DecimalValue(t) == DecimalValue(s) + 1
    ensures AllDigits(t[..|t| - 1]) && '0' <= t[|t| - 1] <= '0' + 10 as char
  {
    assert t[..|t| - 1] == s[..|s| - 1];
  }

  /** What FillFractionals promises of the digits, of which fractionalCount follow the point. */
  ghost predicate Filled(digits: seq<char>, decimalPoint: int, whole: nat, bits: nat, fractionalCount: nat) {
    && AllDigits(digits) && decimalPoint + fractionalCount >= |digits|
    && RoundedAt(DecimalValue(digits) * Pow(10, decimalPoint + fractionalCount - |digits|), whole, Pow(2, bits), fractionalCount)
  }

  /** The rounding after the loop. */
  method Finish(roundUp: bool, fractionalCount: nat, buffer: array<char>, length: nat, decimalPoint: int,
                ghost rest: nat, ghost point: nat, ghost whole: nat, ghost bits: nat, ghost i: nat)
      returns (newLength: nat, newPoint: int)
    requires length <= buffer.Length && 0 < buffer.Length && AllDigits(buffer[..length])
    requires Progress(DecimalValue(buffer[..length]), rest, point, whole, bits, i)
    requires i <= fractionalCount && (i == fractionalCount || rest == 0) && decimalPoint + i == length
    requires decimalPoint >= 0 && (roundUp <==> rest > 0 && 2 * rest >= Pow(2, point))
    modifies buffer
    ensures newLength <= Max(length, 1) && decimalPoint <= newPoint <= decimalPoint + 1
    ensures Filled(buffer[..newLength], newPoint, whole, bits, fractionalCount)
  {
    hide DecimalValue, Pow, RoundedAt, Progress;
    ghost var printed: nat := DecimalValue(buffer[..length]);
    if roundUp {
      HalfUp(printed, rest, point, whole, bits, fractionalCount);
      if length == 0 {
        NoDigits();
        assert buffer[..0] == [];
        assert Pow(10, 0) == 1 by { One(); }
      }
      newLength, newPoint := RoundUp(buffer, length, decimalPoint);
    } else {
      if rest == 0 {
        Exact(printed, point, whole, bits, i, fractionalCount);
      } else {
        HalfUp(printed, rest, point, whole, bits, fractionalCount);
        assert Pow(10, 0) == 1 by { One(); }
      }
      newLength, newPoint := length, decimalPoint;
    }
  }

  lemma BitAfterPoint(rest: nat, point: nat)
    requires rest < Pow(2, point) && point > 0
    ensures ShiftRight(rest, point - 1) % 2 == 1 <==> 2 * rest >= Pow(2, point)
    ensures rest == 0 ==> ShiftRight(rest, point - 1) % 2 == 0
    ensures Pow(2, point) > 0
  {
    var h: nat := Pow(2, point - 1);
    HalfOf(point);
    if rest >= h {
      DivIs(rest, h, 1, rest - h);
    } else {
      DivIs(rest, h, 0, rest);
    }
  }

  lemma DigitAbovePoint(rest: nat, point: nat)
    ensures rest == ShiftRight(rest, point) * Pow(2, point) + rest % Pow(2, point)
    ensures 0 <= ShiftRight(rest, point) * Pow(2, point) && 0 <= rest % Pow(2, point) < Pow(2, point)
  {
  }

  /** Where the point is when the loop of FillFractionals ends, digits of which may still be asked for. */
  ghost function LastPoint(rest: nat, point: nat, digits: nat): nat
    decreases digits
  {
    if digits == 0 || rest == 0 || point == 0 then point
    else LastPoint(rest * 5 % Pow(2, point - 1), point - 1, digits - 1)
  }

  lemma EvenModulus(x: nat, h: nat)
    requires h > 0
    ensures x % (2 * h) % 2 == x % 2
  {
    var q, r := x / (2 * h), x % (2 * h);
    Associate(q, 2, h);
    assert x == 2 * (q * h) + r;
  }

  lemma FivefoldParity(rest: nat, point: nat, rest': nat)
    requires point > 0 && rest' == rest * 5 % Pow(2, point)
    ensures rest' < Pow(2, point) && rest' % 2 == rest % 2
  {
    hide Pow;
    HalfOf(point);
    EvenModulus(rest * 5, Pow(2, point - 1));
  }

  /** An odd fraction keeps its last bit until the point gets there. */
  lemma {:induction false} OddReachesEnd(rest: nat, point: nat, digits: nat)
    requires 0 < point && rest < Pow(2, point)
    ensures LastPoint(rest, point, digits) == 0 <==> rest % 2 == 1 && point <= digits
    decreases digits
  {
    hide Pow, LastPoint;
    if digits == 0 || rest == 0 {
      PointStays(rest, point, digits);
    } else {
      PointMoves(rest, point, digits);
      var rest' := rest * 5 % Pow(2, point - 1);
      if point == 1 {
        One();
        HalfOf(1);
        PointStays(rest', 0, digits - 1);
      } else {
        FivefoldParity(rest, point - 1, rest');
        OddReachesEnd(rest', point - 1, digits - 1);
      }
    }
  }

  /** For a double with a fraction: the shift by point - 1 at fixed-dtoa.cc:262 is by -1 exactly when the significand
      is odd and all its bits behind the point are asked for. */
  lemma ShiftIsNegative(v: Double, fractionalCount: nat)
    requires v < INFINITY && -64 <= Exponent(v) < 0
    ensures var bits := -Exponent(v);
            LastPoint(Significand(v) % Pow(2, bits), bits, fractionalCount) == 0
            <==> Significand(v) % 2 == 1 && bits <= fractionalCount
  {
    hide Pow;
    var bits := -Exponent(v);
    OddReachesEnd(Significand(v) % Pow(2, bits), bits, fractionalCount);
    HalfOf(bits);
    EvenModulus(Significand(v), Pow(2, bits - 1));
  }

  /** (2^52 + 1) / 2 with one place is such a double. */
  lemma HalfWithOnePlace()
    ensures var v := 0x4320_0000_0000_0001;
            && Significand(v) == 0x10_0000_0000_0001 && Exponent(v) == -1
            && LastPoint(Significand(v) % Pow(2, 1), 1, 1) == 0
  {
    One();
    HalfOf(1);
    ShiftIsNegative(0x4320_0000_0000_0001, 1);
  }

  /** The digits of fractionals / 2^-exponent in one 64-bit word, rounded half up. Where the point has reached
      the last bit nothing is left, so there is nothing to round. */
  method FillFractionals64(fractionals: nat, exponent: int, fractionalCount: nat, buffer: array<char>, length: nat)
      returns (newLength: nat, newPoint: int, ghost lastPoint: nat)
    requires -64 <= exponent < 0 && fractionals < TWO56 && fractionals < Pow(2, -exponent)
    requires length + Max(fractionalCount, 1) <= buffer.Length && AllDigits(buffer[..length])
    modifies buffer
    ensures newLength <= length + Max(fractionalCount, 1) && newPoint >= length
    ensures Filled(buffer[..newLength], newPoint, DecimalValue(old(buffer[..length])) * Pow(2, -exponent) + fractionals,
                   -exponent, fractionalCount)
    ensures lastPoint == LastPoint(fractionals, -exponent, fractionalCount)
    ensures lastPoint == 0 <==> fractionals % 2 == 1 && -exponent <= fractionalCount
  {
    hide DecimalValue, Pow, RoundedAt, Progress, Filled, LastPoint, ShiftRight;
    var rest: nat, point: nat := fractionals, -exponent;
    ghost var whole: nat := DecimalValue(buffer[..length]) * Pow(2, point) + rest;
    ghost var bits: nat := point;
    ProgressStarts(DecimalValue(buffer[..length]), rest, point, whole);
    newLength := length;
    var i := 0;
    WordSizes();
    while i < fractionalCount && rest != 0
      invariant i <= fractionalCount && newLength == length + i && point + i == bits
      invariant AllDigits(buffer[..newLength]) && FitsAt(rest, i, TWO56)
      invariant Progress(DecimalValue(buffer[..newLength]), rest, point, whole, bits, i)
      invariant LastPoint(fractionals, bits, fractionalCount) == LastPoint(rest, point, fractionalCount - i)
    {
      ghost var printed: nat := DecimalValue(buffer[..newLength]);
      ProgressBelow(printed, rest, point, whole, bits, i);
      PointMoves(rest, point, fractionalCount - i);
      FivefoldFits(rest, i, TWO56, 64, point, bits);
      ghost var rest0 := rest;
      rest := rest * 5;
      assert rest < TWO64;
      point := point - 1;
      var digit := ShiftRight(rest, point);
      DigitAbovePoint(rest, point);
      NextDigit(printed, rest0, point + 1, whole, bits, i, digit, rest % Pow(2, point));
      newLength := Append(buffer, newLength, digit);
      rest := rest - digit * Pow(2, point);
      i := i + 1;
    }
    ProgressBelow(DecimalValue(buffer[..newLength]), rest, point, whole, bits, i);
    PointStays(rest, point, fractionalCount - i);
    OddReachesEnd(fractionals, bits, fractionalCount);
    lastPoint := point;
    var roundUp := false;
    if point > 0 {
      BitAfterPoint(rest, point);
      roundUp := ShiftRight(rest, point - 1) % 2 == 1;
    } else {
      assert rest == 0 by { One(); }
    }
    newLength, newPoint := Finish(roundUp, fractionalCount, buffer, newLength, length, rest, point, whole, bits, i);
  }

  lemma PointMoves(rest: nat, point: nat, digits: nat)
    requires digits > 0 && rest > 0 && point > 0
    ensures LastPoint(rest, point, digits) == LastPoint(rest * 5 % Pow(2, point - 1), point - 1, digits - 1)
  {
  }

  lemma PointStays(rest: nat, point: nat, digits: nat)
    requires digits == 0 || rest == 0
    ensures LastPoint(rest, point, digits) == point
  {
  }

  lemma ProgressStarts(printed: nat, rest: nat, point: nat, whole: nat)
    requires rest < Pow(2, point) && whole == printed * Pow(2, point) + rest
    ensures Progress(printed, rest, point, whole, point, 0)
  {
    assert Pow(5, 0) == 1;
  }

  lemma ProgressBelow(printed: nat, rest: nat, point: nat, whole: nat, bits: nat, i: nat)
    requires Progress(printed, rest, point, whole, bits, i)
    ensures rest < Pow(2, point) && (rest > 0 ==> point > 0)
  {
  }

  lemma TwoTo119(fractionals: nat, k: nat)
    requires fractionals < TWO56 && k <= 63
    ensures fractionals * Pow(2, k) < TWO56 * 0x8000_0000_0000_0000
    ensures 125 * (TWO56 * 0x8000_0000_0000_0000) <= TWO128
  {
    hide Pow;
    WordSizes();
    HalfOf(64);
    PowMonotone(2, k, 63);
    MulMonotone(Pow(2, k), Pow(2, 63), fractionals);
    MulStrict(fractionals, TWO56, Pow(2, 63));
  }

  /** The fraction placed at the top of 128 bits. */
  lemma Placed(fractionals: nat, bits: nat)
    requires 64 < bits <= 128
    ensures fractionals * TWO64 / Pow(2, bits - 64) == fractionals * Pow(2, 128 - bits)
    ensures Pow(2, bits) * Pow(2, 128 - bits) == TWO128
  {
    hide Pow;
    WordSizes();
    PowAdd(2, bits, 128 - bits);
    var p: nat, q: nat := Pow(2, bits - 64), Pow(2, 128 - bits);
    PowAdd(2, bits - 64, 128 - bits);
    assert fractionals * (p * q) == fractionals * q * p;
    DivIs(fractionals * TWO64, p, fractionals * q, 0);
  }

  /** A fraction scaled up is the same fraction. */
  lemma FilledAnyScale(digits: seq<char>, decimalPoint: int, whole: nat, bits: nat, more: nat, scaled: nat, fractionalCount: nat)
    requires Filled(digits, decimalPoint, scaled, bits + more, fractionalCount) && scaled == whole * Pow(2, more)
    ensures Filled(digits, decimalPoint, whole, bits, fractionalCount)
  {
    hide DecimalValue, Pow, RoundsHalfUp;
    PowAdd(2, bits, more);
    Exchanged(whole, Pow(2, more), Pow(10, fractionalCount));
    ScaleHalfUp(DecimalValue(digits) * Pow(10, decimalPoint + fractionalCount - |digits|),
                whole * Pow(10, fractionalCount), Pow(2, bits), Pow(2, more));
  }

  lemma Exchanged(a: nat, b: nat, c: nat)
    ensures a * b * c == a * c * b
  {
  }

  lemma ScaledWhole(printed: nat, fractionals: nat, bits: nat, whole: nat)
    requires 64 < bits <= 128 && whole == printed * Pow(2, bits) + fractionals
    ensures printed * TWO128 + fractionals * Pow(2, 128 - bits) == whole * Pow(2, 128 - bits)
    ensures fractionals < Pow(2, bits) ==> fractionals * Pow(2, 128 - bits) < TWO128
  {
    hide Pow;
    Placed(fractionals, bits);
    var p: nat, q: nat := Pow(2, bits), Pow(2, 128 - bits);
    assert printed * (p * q) == printed * p * q;
    Distribute(printed * p, fractionals, q);
    if fractionals < p {
      MulStrict(fractionals, p, q);
    }
  }

  lemma SmallQuotient(rest: nat, point: nat)
    requires rest < 10 * Pow(2, point)
    ensures rest / Pow(2, point) <= 9
  {
    DigitAbovePoint(rest, point);
    MulCancel(rest / Pow(2, point), 10, Pow(2, point));
  }

  const LIMIT: nat := TWO56 * 0x8000_0000_0000_0000

  /** One digit taken off a 128-bit fraction. */
  method NextDigit128(fractionals128: UInt128, point: nat, ghost printed: nat, ghost scaled: nat, ghost i: nat) returns (digit: nat)
    requires fractionals128.Valid() && fractionals128.Value() > 0 && FitsAt(fractionals128.Value(), i, LIMIT) && point >= 2
    requires Progress(printed, fractionals128.Value(), point, scaled, 128, i)
    modifies fractionals128
    ensures fractionals128.Valid() && digit <= 9 && FitsAt(fractionals128.Value(), i + 1, LIMIT)
    ensures Progress(10 * printed + digit, fractionals128.Value(), point - 1, scaled, 128, i + 1)
  {
    hide Pow, Progress, UInt128.Value, UInt128.Valid;
    ghost var rest: nat := fractionals128.Value();
    ProgressBelow(printed, rest, point, scaled, 128, i);
    assert point + i == 128 by { ProgressPoint(printed, rest, point, scaled, 128, i); }
    TwoTo119(0, 0);
    WordSizes();
    FivefoldFits(rest, i, LIMIT, 128, point, 128);
    fractionals128.Multiply(5);
    HalfOf(point);
    SmallQuotient(5 * rest, point - 1);
    digit := fractionals128.DivModPowerOf2(point - 1);
    DigitAbovePoint(5 * rest, point - 1);
    NextDigit(printed, rest, point, scaled, 128, i, digit, fractionals128.Value());
  }

  lemma ProgressPoint(printed: nat, rest: nat, point: nat, whole: nat, bits: nat, i: nat)
    requires Progress(printed, rest, point, whole, bits, i)
    ensures point + i == bits
  {
  }

  /** The fraction, shifted to the top of a 128-bit word. */
  method Place(fractionals: nat, exponent: int, ghost first: nat, ghost whole: nat) returns (fractionals128: UInt128)
    requires -128 <= exponent < -64 && fractionals < TWO56 && fractionals < Pow(2, -exponent)
    requires whole == first * Pow(2, -exponent) + fractionals
    ensures fresh(fractionals128) && fractionals128.Valid() && FitsAt(fractionals128.Value(), 0, LIMIT)
    ensures Progress(first, fractionals128.Value(), 128, whole * Pow(2, 128 + exponent), 128, 0)
  {
    hide Pow, Progress;
    fractionals128 := new UInt128(fractionals, 0);
    fractionals128.Shift(-exponent - 64);
    Placed(fractionals, -exponent);
    ScaledWhole(first, fractionals, -exponent, whole);
    TwoTo119(fractionals, 128 + exponent);
    WordSizes();
    ProgressStarts(first, fractionals128.Value(), 128, whole * Pow(2, 128 + exponent));
  }

  /** The digits of fractionals / 2^-exponent in a 128-bit word. */
  method FillFractionals128(fractionals: nat, exponent: int, fractionalCount: nat, buffer: array<char>, length: nat)
      returns (newLength: nat, newPoint: int)
    requires -128 <= exponent < -64 && fractionals < TWO56 && fractionals < Pow(2, -exponent) && fractionalCount <= 20
    requires length + Max(fractionalCount, 1) <= buffer.Length && AllDigits(buffer[..length])
    modifies buffer
    ensures newLength <= length + Max(fractionalCount, 1) && newPoint >= length
    ensures Filled(buffer[..newLength], newPoint, DecimalValue(old(buffer[..length])) * Pow(2, -exponent) + fractionals,
                   -exponent, fractionalCount)
  {
    hide DecimalValue, Pow, RoundedAt, Progress, Filled, FitsAt;
    ghost var first: nat, bits: nat := DecimalValue(buffer[..length]), -exponent;
    ghost var whole: nat := first * Pow(2, bits) + fractionals;
    ghost var scaled: nat := whole * Pow(2, 128 - bits);
    var fractionals128 := Place(fractionals, exponent, first, whole);
    var point: nat := 128;
    newLength := length;
    var i := 0;
    var zero := fractionals128.IsZero();
    while i < fractionalCount && !zero
      invariant i <= fractionalCount && newLength == length + i && point + i == 128 && fractionals128.Valid() && fresh(fractionals128)
      invariant zero <==> fractionals128.Value() == 0
      invariant AllDigits(buffer[..newLength]) && FitsAt(fractionals128.Value(), i, LIMIT)
      invariant Progress(DecimalValue(buffer[..newLength]), fractionals128.Value(), point, scaled, 128, i)
    {
      var digit := NextDigit128(fractionals128, point, DecimalValue(buffer[..newLength]), scaled, i);
      point := point - 1;
      newLength := Append(buffer, newLength, digit);
      i := i + 1;
      zero := fractionals128.IsZero();
    }
    ghost var rest: nat := fractionals128.Value();
    ProgressBelow(DecimalValue(buffer[..newLength]), rest, point, scaled, 128, i);
    BitAfterPoint(rest, point);
    var bit := fractionals128.BitAt(point - 1);
    newLength, newPoint := Finish(bit == 1, fractionalCount, buffer, newLength, length, rest, point, scaled, 128, i);
    FilledAnyScale(buffer[..newLength], newPoint, whole, bits, 128 - bits, scaled, fractionalCount);
  }

  // ----- The whole number -----

  /** Digits without zeros at either end. */
  predicate Trimmed(digits: seq<char>) {
    |digits| > 0 ==> digits[0] != '0' && digits[|digits| - 1] != '0'
  }

  lemma {:induction false} TrailingZeros(s: seq<char>, length: nat)
    requires length <= |s| && forall k :: length <= k < |s| ==> s[k] == '0'
    ensures DecimalValue(s) == DecimalValue(s[..length]) * Pow(10, |s| - length)
  {
    if length == |s| {
      assert s[..length] == s;
      One();
    } else {
      TrailingZeros(s[..|s| - 1], length);
      assert s[..|s| - 1][..length] == s[..length];
      TenMore(|s| - 1 - length);
      MulTen(DecimalValue(s[..length]), Pow(10, |s| - 1 - length));
    }
  }

  /** Removes zeros at both ends; leading ones move the decimal point. */
  method TrimZeros(buffer: array<char>, length: nat, decimalPoint: int) returns (newLength: nat, newPoint: int)
    requires length <= buffer.Length && AllDigits(buffer[..length])
    modifies buffer
    ensures newLength <= length && AllDigits(buffer[..newLength]) && Trimmed(buffer[..newLength])
    ensures newPoint - newLength >= decimalPoint - length
    ensures DecimalValue(old(buffer[..length]))
         == DecimalValue(buffer[..newLength]) * Pow(10, newPoint - newLength - decimalPoint + length)
  {
    hide DecimalValue, Pow;
    ghost var before := buffer[..length];
    newLength := length;
    while newLength > 0 && buffer[newLength - 1] == '0'
      invariant newLength <= length && forall k :: newLength <= k < length ==> buffer[k] == '0'
    {
      newLength := newLength - 1;
    }
    TrailingZeros(before, newLength);
    ghost var kept := before[..newLength];
    assert buffer[..newLength] == kept;
    var firstNonZero := 0;
    while firstNonZero < newLength && buffer[firstNonZero] == '0'
      invariant firstNonZero <= newLength && forall k :: 0 <= k < firstNonZero ==> buffer[k] == '0'
    {
      firstNonZero := firstNonZero + 1;
    }
    LeadingZeros(kept, firstNonZero);
    newPoint := decimalPoint;
    if firstNonZero != 0 {
      MoveDown(buffer, firstNonZero, newLength);
      newLength := newLength - firstNonZero;
      newPoint := newPoint - firstNonZero;
    }
    assert buffer[..newLength] == kept[firstNonZero..];
  }

  method MoveDown(buffer: array<char>, offset: nat, length: nat)
    requires offset <= length <= buffer.Length
    modifies buffer
    ensures buffer[..length - offset] == old(buffer[offset..length])
  {
    for i := offset to length
      invariant buffer[..i - offset] == old(buffer[offset..i])
      invariant forall k :: i <= k < length ==> buffer[k] == old(buffer[k])
    {
      buffer[i - offset] := buffer[i];
    }
  }

  lemma TrimmedFilled(digits: seq<char>, decimalPoint: int, digits': seq<char>, decimalPoint': int, whole: nat, bits: nat,
                      fractionalCount: nat)
    requires Filled(digits, decimalPoint, whole, bits, fractionalCount) && AllDigits(digits')
    requires decimalPoint' - |digits'| >= decimalPoint - |digits|
    requires DecimalValue(digits) == DecimalValue(digits') * Pow(10, decimalPoint' - |digits'| - decimalPoint + |digits|)
    ensures Filled(digits', decimalPoint', whole, bits, fractionalCount)
  {
    hide DecimalValue, Pow, RoundedAt;
    var more, rest: nat := decimalPoint' - |digits'| - decimalPoint + |digits|, decimalPoint + fractionalCount - |digits|;
    PowAdd(10, more, rest);
    assert DecimalValue(digits') * Pow(10, more) * Pow(10, rest) == DecimalValue(digits') * (Pow(10, more) * Pow(10, rest));
  }

  /** Nothing printed: the point is of no importance. */
  lemma EmptyFilled(decimalPoint: int, decimalPoint': int, whole: nat, bits: nat, fractionalCount: nat)
    requires Filled([], decimalPoint, whole, bits, fractionalCount) && decimalPoint' + fractionalCount >= 0
    ensures Filled([], decimalPoint', whole, bits, fractionalCount)
  {
    hide DecimalValue, Pow, RoundedAt;
    NoDigits();
  }

  /** An integer is exact. */
  lemma IntegerFilled(digits: seq<char>, whole: nat, fractionalCount: nat)
    requires AllDigits(digits) && DecimalValue(digits) == whole
    ensures Filled(digits, |digits|, whole, 0, fractionalCount)
  {
    hide DecimalValue;
    assert Pow(2, 0) == 1;
  }

  /** A number below 2^-75 has nothing to print in 20 places. */
  lemma NothingFilled(significand: nat, bits: nat, fractionalCount: nat)
    requires significand < 0x20_0000_0000_0000 && bits > 128 && fractionalCount <= 20
    ensures Filled([], -(fractionalCount as int), significand, bits, fractionalCount)
  {
    hide Pow;
    NoDigits();
    One();
    PowMonotone(10, fractionalCount, 20);
    TenTo20();
    WordSizes();
    HalfOf(129);
    PowMonotone(2, 129, bits);
    MulMonotone(significand, 0x20_0000_0000_0000, Pow(10, fractionalCount));
    MulMonotone(Pow(10, fractionalCount), 100_000_000_000_000_000_000, 0x20_0000_0000_0000);
  }

  lemma TenTo20()
    ensures Pow(10, 20) == 100_000_000_000_000_000_000
  {
    hide Pow;
    TenTo17();
    PowAdd(10, 17, 3);
  }

  lemma SmallPowers(e: nat)
    ensures e <= 20 ==> Pow(2, e) <= 0x10_0000
    ensures Pow(2, 11) == 2048 && Pow(2, 17) == 0x2_0000 && Pow(2, 20) == 0x10_0000
    ensures Pow(2, 3) == 8 && Pow(2, 5) == 32 && Pow(2, 53) == 0x20_0000_0000_0000
  {
    hide Pow;
    TwoTo8();
    assert Pow(2, 3) == 8 && Pow(2, 5) == 32 by { TwoTo5(); }
    PowAdd(2, 8, 3);
    PowAdd(2, 8, 8);
    HalfOf(17);
    PowAdd(2, 17, 3);
    PowAdd(2, 20, 20);
    PowAdd(2, 40, 8);
    PowAdd(2, 48, 5);
    if e <= 20 {
      PowMonotone(2, e, 20);
    }
  }

  lemma TwoTo5()
    ensures Pow(2, 3) == 8 && Pow(2, 5) == 32
  {
  }

  /** A number of 65 to 73 bits: divided by 10^17 the quotient and the remainder fit in words. */
  method SplitLarge(significand: nat, exponent: nat) returns (quotient: nat, remainder: nat)
    requires significand < 0x20_0000_0000_0000 && 11 < exponent <= 20
    ensures quotient < TWO32 && remainder < TEN17 && quotient * TEN17 + remainder == significand * Pow(2, exponent)
  {
    hide Pow;
    var divisor := FIVE17;
    SmallPowers(exponent);
    if exponent > 17 {
      LargeDividend(significand, exponent, Pow(2, exponent - 17));
      var dividend := significand * Pow(2, exponent - 17);
      assert dividend < TWO64;
      quotient := dividend / divisor;
      remainder := dividend % divisor * Pow(2, 17);
    } else {
      PowMonotone(2, 17 - exponent, 5);
      PowAdd(2, 17 - exponent, exponent);
      divisor := divisor * Pow(2, 17 - exponent);
      assert divisor < TWO64;
      SplitSmall(significand, divisor, Pow(2, 17 - exponent), Pow(2, exponent));
      quotient := significand / divisor;
      remainder := significand % divisor * Pow(2, exponent);
    }
  }

  lemma LargeDividend(significand: nat, exponent: nat, p: nat)
    requires significand < 0x20_0000_0000_0000 && 17 < exponent <= 20 && p == Pow(2, exponent - 17)
    ensures var dividend := significand * p;
            && 0 <= dividend < TWO64 && dividend / FIVE17 < TWO32 && dividend % FIVE17 * 0x2_0000 < TEN17
            && dividend / FIVE17 * TEN17 + dividend % FIVE17 * 0x2_0000 == significand * Pow(2, exponent)
  {
    hide Pow;
    SmallPowers(exponent);
    PowMonotone(2, exponent - 17, 3);
    MulMonotone(p, 8, significand);
    PowAdd(2, exponent - 17, 17);
    Associate(significand, p, 0x2_0000);
  }

  lemma SplitSmall(significand: nat, divisor: nat, p: nat, q: nat)
    requires p > 0 && q > 0 && p * q == 0x2_0000 && divisor == FIVE17 * p && significand < 0x20_0000_0000_0000
    ensures 0 <= significand / divisor < TWO32 && 0 <= significand % divisor * q < TEN17
    ensures significand / divisor * TEN17 + significand % divisor * q == significand * q
  {
    var a: nat, b: nat := significand / divisor, significand % divisor;
    assert FIVE17 * p * q == FIVE17 * (p * q);
    assert significand == a * divisor + b;
    assert (a * divisor + b) * q == a * (divisor * q) + b * q;
    MulStrict(b, divisor, q);
    MulMonotone(FIVE17, divisor, a);
  }

  /** The part of a number before the point. */
  lemma CutAtPoint(significand: nat, bits: nat)
    requires significand < 0x20_0000_0000_0000 && bits > 0
    ensures var integrals := ShiftRight(significand, bits);
            && integrals < 0x20_0000_0000_0000
            && 0 <= significand - integrals * Pow(2, bits) < Pow(2, bits)
            && significand - integrals * Pow(2, bits) <= significand
  {
    hide Pow;
    DigitAbovePoint(significand, bits);
    MulMonotone(1, Pow(2, bits), ShiftRight(significand, bits));
  }

  /** The digits of a number whose exponent is not negative. */
  method PrintInteger(significand: nat, exponent: nat, buffer: array<char>) returns (length: nat)
    requires significand < 0x20_0000_0000_0000 && exponent <= 20 && buffer.Length >= 48
    modifies buffer
    ensures length <= 27 && AllDigits(buffer[..length]) && DecimalValue(buffer[..length]) == significand * Pow(2, exponent)
  {
    hide DecimalValue, Pow;
    NoDigits();
    assert buffer[..0] == [];
    if exponent + 53 > 64 {
      var quotient, remainder := SplitLarge(significand, exponent);
      assert quotient < Pow(10, 10) by {
        TenTo17();
        PowAdd(10, 7, 3);
      }
      length := FillDigits32(quotient, buffer, 0);
      length := FillDigits64FixedLength(remainder, buffer, length);
    } else {
      SmallPowers(exponent);
      PowMonotone(2, exponent, 11);
      MulMonotone(significand, 0x20_0000_0000_0000, Pow(2, exponent));
      length := FillDigits64(significand * Pow(2, exponent), buffer, 0);
    }
  }

  /** The digits of a number that has some before the point and a fraction. */
  method PrintMixed(significand: nat, exponent: int, fractionalCount: nat, buffer: array<char>)
      returns (length: nat, decimalPoint: int)
    requires significand < 0x20_0000_0000_0000 && -53 < exponent < 0 && fractionalCount <= 20 && buffer.Length >= 48
    modifies buffer
    ensures length <= 45 && decimalPoint >= 0
    ensures Filled(buffer[..length], decimalPoint, significand, -exponent, fractionalCount)
  {
    hide DecimalValue, Pow, Filled;
    NoDigits();
    assert buffer[..0] == [];
    CutAtPoint(significand, -exponent);
    var integrals := ShiftRight(significand, -exponent);
    var fractionals := significand - integrals * Pow(2, -exponent);
    if integrals > 0xFFFF_FFFF {
      length := FillDigits64(integrals, buffer, 0);
    } else {
      assert integrals < Pow(10, 10) by {
        TenTo17();
        PowAdd(10, 7, 3);
      }
      length := FillDigits32(integrals, buffer, 0);
    }
    ghost var lastPoint: nat;
    length, decimalPoint, lastPoint := FillFractionals64(fractionals, exponent, fractionalCount, buffer, length);
  }

  /** The digits of a number below one. */
  method PrintFraction(significand: nat, exponent: int, fractionalCount: nat, buffer: array<char>)
      returns (length: nat, decimalPoint: int)
    requires significand < 0x20_0000_0000_0000 && -128 <= exponent <= -53 && fractionalCount <= 20 && buffer.Length >= 48
    modifies buffer
    ensures length <= 45 && decimalPoint >= 0
    ensures Filled(buffer[..length], decimalPoint, significand, -exponent, fractionalCount)
  {
    hide DecimalValue, Pow, Filled;
    NoDigits();
    assert buffer[..0] == [];
    SmallPowers(0);
    PowMonotone(2, 53, -exponent);
    assert 0 * Pow(2, -exponent) == 0;
    if -exponent <= 64 {
      ghost var lastPoint: nat;
      length, decimalPoint, lastPoint := FillFractionals64(significand, exponent, fractionalCount, buffer, 0);
    } else {
      length, decimalPoint := FillFractionals128(significand, exponent, fractionalCount, buffer, 0);
    }
  }

  /** Fixed-point output is what the bignum printer promises of it. */
  lemma FilledIsPromised(digits: seq<char>, decimalPoint: int, significand: nat, exponent: int, fractionalCount: nat)
    requires exponent >= 0 ==> Filled(digits, decimalPoint, significand * Pow(2, exponent), 0, fractionalCount)
    requires exponent < 0 ==> Filled(digits, decimalPoint, significand, -exponent, fractionalCount)
    ensures Promised(FIXED, significand, exponent, false, fractionalCount, digits, decimalPoint)
  {
    hide Pow, DecimalValue, RoundedAt;
    Sides(exponent, 0);
    One();
    assert Pow(2, 0) == 1 by { One(); }
  }

  /** It answers for every double below 2^73, at up to 20 places: the double rounded half up to the given number of
      places, without zeros at either end. */
  method FastFixedDtoa(v: Double, fractionalCount: nat, buffer: array<char>) returns (ok: bool, length: nat, decimalPoint: int)
    requires v < INFINITY && buffer.Length >= 48
    modifies buffer
    ensures ok <==> Exponent(v) <= 20 && fractionalCount <= 20
    ensures ok ==> length < buffer.Length && Trimmed(buffer[..length]) && (length == 0 ==> decimalPoint == -(fractionalCount as int))
    ensures ok ==> Promised(FIXED, Significand(v), Exponent(v), false, fractionalCount, buffer[..length], decimalPoint)
  {
    hide Pow, DecimalValue, Filled, Promised;
    var significand := Significand(v);
    var exponent := Exponent(v);
    if exponent > 20 || fractionalCount > 20 {
      return false, 0, 0;
    }
    ghost var whole, bits := significand, 0;
    if exponent >= 0 {
      length := PrintInteger(significand, exponent, buffer);
      decimalPoint := length;
      whole := significand * Pow(2, exponent);
      IntegerFilled(buffer[..length], whole, fractionalCount);
    } else if exponent > -53 {
      length, decimalPoint := PrintMixed(significand, exponent, fractionalCount, buffer);
      bits := -exponent;
    } else if exponent < -128 {
      buffer[0] := 0 as char;
      length := 0;
      decimalPoint := -(fractionalCount as int);
      bits := -exponent;
      NothingFilled(significand, bits, fractionalCount);
      assert buffer[..0] == [];
    } else {
      length, decimalPoint := PrintFraction(significand, exponent, fractionalCount, buffer);
      bits := -exponent;
    }
    length, decimalPoint := Trim(buffer, length, decimalPoint, whole, bits, fractionalCount);
    ghost var digits := buffer[..length];
    buffer[length] := 0 as char;
    assert buffer[..length] == digits;
    FilledIsPromised(digits, decimalPoint, significand, exponent, fractionalCount);
    ok := true;
  }

  method Trim(buffer: array<char>, length: nat, decimalPoint: int, ghost whole: nat, ghost bits: nat, fractionalCount: nat)
      returns (newLength: nat, newPoint: int)
    requires length <= buffer.Length && Filled(buffer[..length], decimalPoint, whole, bits, fractionalCount)
    modifies buffer
    ensures newLength <= length && Trimmed(buffer[..newLength]) && (newLength == 0 ==> newPoint == -(fractionalCount as int))
    ensures Filled(buffer[..newLength], newPoint, whole, bits, fractionalCount)
  {
    hide Pow, DecimalValue, RoundedAt;
    ghost var digits := buffer[..length];
    newLength, newPoint := TrimZeros(buffer, length, decimalPoint);
    TrimmedFilled(digits, decimalPoint, buffer[..newLength], newPoint, whole, bits, fractionalCount);
    if newLength == 0 {
      assert buffer[..newLength] == [];
      EmptyFilled(newPoint, -(fractionalCount as int), whole, bits, fractionalCount);
      newPoint := -(fractionalCount as int);
    }
  }

  /** A digit string without a zero at its end is no multiple of ten. */
  lemma NoMoreZeros(s: seq<char>, t: seq<char>, more: nat)
    requires AllDigits(s) && AllDigits(t) && Trimmed(s) && Trimmed(t) && s != [] && DecimalValue(t) == DecimalValue(s) * Pow(10, more)
    ensures more == 0 && t != []
  {
    hide Pow;
    LeadingNonZero(s);
    MulStrict(0, DecimalValue(s), Pow(10, more));
    if more > 0 {
      TenMore(more - 1);
      MulTen(DecimalValue(s), Pow(10, more - 1));
      LastOfTens(t, DecimalValue(s) * Pow(10, more - 1));
    }
  }

  lemma LastOfTens(t: seq<char>, n: int)
    requires AllDigits(t) && t != [] && DecimalValue(t) == 10 * n
    ensures t[|t| - 1] == '0'
  {
  }

  /** Without zeros at either end a number is written in one way. */
  lemma TrimmedIsUnique(s: seq<char>, t: seq<char>, x: nat, y: nat)
    requires AllDigits(s) && AllDigits(t) && Trimmed(s) && Trimmed(t) && s != [] && t != []
    requires DecimalValue(s) * Pow(10, x) == DecimalValue(t) * Pow(10, y)
    ensures s == t && x == y
  {
    hide Pow, DecimalValue, Trimmed;
    if x >= y {
      SameTail(DecimalValue(s), DecimalValue(t), x, y);
      NoMoreZeros(s, t, x - y);
    } else {
      SameTail(DecimalValue(t), DecimalValue(s), y, x);
      NoMoreZeros(t, s, y - x);
    }
    One();
    assert DecimalValue(s) == DecimalValue(t);
    SameLength(s, t);
    SameLength(t, s);
    SameValueSameDigits(s, t);
  }

  lemma SameTail(a: int, b: int, x: nat, y: nat)
    requires x >= y && a * Pow(10, x) == b * Pow(10, y)
    ensures b == a * Pow(10, x - y)
  {
    hide Pow;
    PowAdd(10, x - y, y);
    assert a * (Pow(10, x - y) * Pow(10, y)) == a * Pow(10, x - y) * Pow(10, y);
    MulCancel(b, a * Pow(10, x - y), Pow(10, y));
  }

  lemma SameLength(s: seq<char>, t: seq<char>)
    requires AllDigits(s) && AllDigits(t) && Trimmed(s) && s != [] && DecimalValue(s) == DecimalValue(t)
    ensures |s| <= |t|
  {
    hide Pow, DecimalValue;
    LeadingNonZero(s);
    DecimalBound(t);
    if |t| < |s| {
      PowMonotone(10, |t|, |s| - 1);
    }
  }

  /** The fast printer and the bignum printer give the same number, n units in the last of the requested places, and
      where zeros at the ends are dropped the same digits. */
  lemma FixedAgrees(significand: nat, exponent: int, fractionalCount: nat,
                    digits: seq<char>, decimalPoint: int, digits': seq<char>, decimalPoint': int)
    requires Promised(FIXED, significand, exponent, false, fractionalCount, digits, decimalPoint)
    requires Promised(FIXED, significand, exponent, false, fractionalCount, digits', decimalPoint')
    ensures DecimalValue(digits) * Pow(10, decimalPoint + fractionalCount - |digits|)
         == DecimalValue(digits') * Pow(10, decimalPoint' + fractionalCount - |digits'|)
    ensures Trimmed(digits) && Trimmed(digits') && digits != [] && digits' != [] ==> digits == digits' && decimalPoint == decimalPoint'
  {
    hide Pow, DecimalValue, RoundedAt;
    SidesPositive(exponent, 0);
    var num, den := significand * Above(exponent, 0), Below(exponent, 0);
    RoundedIsUnique(DecimalValue(digits) * Pow(10, decimalPoint + fractionalCount - |digits|),
                    DecimalValue(digits') * Pow(10, decimalPoint' + fractionalCount - |digits'|), num, den, fractionalCount);
    if Trimmed(digits) && Trimmed(digits') && digits != [] && digits' != [] {
      TrimmedIsUnique(digits, digits', decimalPoint + fractionalCount - |digits|, decimalPoint' + fractionalCount - |digits'|);
    }
  }
}
