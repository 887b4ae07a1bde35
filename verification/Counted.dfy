/** Counted and fixed digit generation with exact integers (bignum-dtoa.cc). */
module CountedDigits {
  import opened Arithmetic
  import opened Bigits
  import opened Bignums
  import opened ShortestDigits
  import opened Decimals

  /** n is the integer closest to num / den, the upper one in the middle. */
  ghost predicate RoundsHalfUp(n: int, num: int, den: int) {
    2 * (n * den) <= 2 * num + den < 2 * (n * den) + 2 * den
  }

  /** n is num / den * 10^e rounded half up. */
  ghost predicate RoundedAt(n: int, num: nat, den: nat, e: int) {
    if e >= 0 then RoundsHalfUp(n, num * Pow(10, e), den) else RoundsHalfUp(n, num, den * Pow(10, -e))
  }

  /** There is only one such integer. */
  lemma RoundedIsUnique(n: int, m: int, num: nat, den: nat, e: int)
    requires den > 0 && RoundedAt(n, num, den, e) && RoundedAt(m, num, den, e)
    ensures n == m
  {
    var d := if e >= 0 then den else den * Pow(10, -e);
    if e < 0 {
      MulStrict(0, den, Pow(10, -e));
    }
    assert (n + 1) * d == n * d + d;
    assert (m + 1) * d == m * d + d;
    MulCancel(n, m + 1, d);
    MulCancel(m, n + 1, d);
  }

  /** The digits before the last one. */
  method LeadingDigits(count: nat, numerator: Bignum, denominator: Bignum, buffer: array<char>,
                       ghost num: nat, ghost den: nat)
    requires numerator.Normal() && denominator.Normal() && numerator.bigits != denominator.bigits
    requires numerator != denominator
    requires num == numerator.Value() && den == denominator.Value() && num < 10 * den
    requires den * 10 < Weight(numerator.bigits.Length)
    requires 0 < count <= buffer.Length
    modifies numerator, numerator.bigits, buffer
    ensures numerator.Normal() && numerator.Value() < 10 * den
    ensures AllDigits(buffer[..count - 1])
    ensures num * Pow(10, count - 1) == 10 * (DecimalValue(buffer[..count - 1]) * den) + numerator.Value()
    ensures forall i :: count - 1 <= i < buffer.Length ==> buffer[i] == old(buffer[i])
  {
    hide Bignum.Valid, Bignum.Value, Bignum.IsClamped, Weight;
    numerator.Size();
    var i := 0;
    while i < count - 1
      invariant 0 <= i <= count - 1
      invariant numerator.Normal() && numerator.Value() < 10 * den
      invariant denominator.Normal() && denominator.Value() == den
      invariant AllDigits(buffer[..i])
      invariant num * Pow(10, i) == 10 * (DecimalValue(buffer[..i]) * den) + numerator.Value()
      invariant forall j :: i <= j < buffer.Length ==> buffer[j] == old(buffer[j])
    {
      ghost var n, v := DecimalValue(buffer[..i]), numerator.Value();
      var digit := AppendDigit(numerator, denominator, buffer, i);
      ghost var r := numerator.Value();
      numerator.Times10();
      CountedStep(num, Pow(10, i), n, den, v, digit, r);
      i := i + 1;
    }
  }

  lemma CountedStep(num: nat, p: nat, n: int, den: nat, v: nat, digit: nat, r: nat)
    requires num * p == 10 * (n * den) + v && v == digit * den + r
    ensures num * (10 * p) == 10 * ((10 * n + digit) * den) + 10 * r
    ensures num * p == (10 * n + digit) * den + r
  {
    assert (10 * n + digit) * den == 10 * (n * den) + digit * den;
    assert num * (10 * p) == 10 * (num * p);
  }

  /** All digits, the last one rounded and so possibly a ten. */
  method RoundedDigits(count: nat, numerator: Bignum, denominator: Bignum, buffer: array<char>,
                       ghost num: nat, ghost den: nat)
    requires numerator.Normal() && denominator.Normal() && numerator.bigits != denominator.bigits
    requires numerator != denominator
    requires num == numerator.Value() && den == denominator.Value() && num < 10 * den
    requires den * 10 < Weight(numerator.bigits.Length)
    requires 0 < count <= buffer.Length
    modifies numerator, numerator.bigits, buffer
    ensures AllDigits(buffer[..count - 1]) && '0' <= buffer[count - 1] <= '0' + 10 as char
    ensures RoundsHalfUp(DecimalValue(buffer[..count]), num * Pow(10, count - 1), den)
    ensures forall i :: count <= i < buffer.Length ==> buffer[i] == old(buffer[i])
  {
    hide Bignum.Valid, Bignum.Value, Bignum.IsClamped, Weight, Pow, DecimalValue, RoundsHalfUp;
    LeadingDigits(count, numerator, denominator, buffer, num, den);
    ghost var n, v := DecimalValue(buffer[..count - 1]), numerator.Value();
    var digit := TakeDigit(numerator, denominator);
    CountedStep(num, Pow(10, count - 1), n, den, v, digit, numerator.Value());
    ghost var d0 := digit;
    var compare := Bignum.PlusCompare(numerator, numerator, denominator);
    if compare >= 0 {
      digit := digit + 1;
    }
    WriteLast(buffer, count - 1, digit);
    HalfUpDigit(10 * n + d0, den, numerator.Value(), num * Pow(10, count - 1));
  }

  /** Writes a digit that may be a ten. */
  method WriteLast(buffer: array<char>, last: nat, digit: nat)
    requires last < buffer.Length && AllDigits(buffer[..last]) && digit <= 10
    modifies buffer
    ensures AllDigits(buffer[..last]) && '0' <= buffer[last] <= '0' + 10 as char
    ensures DecimalValue(buffer[..last + 1]) == 10 * DecimalValue(old(buffer[..last])) + digit
    ensures forall i :: 0 <= i < buffer.Length && i != last ==> buffer[i] == old(buffer[i])
  {
    hide DecimalValue;
    ghost var prefix := buffer[..last];
    buffer[last] := '0' + digit as char;
    assert buffer[..last + 1] == prefix + ['0' + digit as char];
    DecimalAppend(prefix, '0' + digit as char);
  }

  lemma HalfUpDigit(n: int, den: nat, r: nat, total: nat)
    requires total == n * den + r && r < den
    ensures RoundsHalfUp(if 2 * r >= den then n + 1 else n, total, den)
  {
    assert (n + 1) * den == n * den + den;
  }

  /** Fixes a last digit ten: the carry moves up as long as it makes another ten. */
  method PropagateCarry(count: nat, decimalPoint: int, buffer: array<char>) returns (newPoint: int)
    requires 0 < count <= buffer.Length
    requires AllDigits(buffer[..count - 1]) && '0' <= buffer[count - 1] <= '0' + 10 as char
    modifies buffer
    ensures AllDigits(buffer[..count])
    ensures decimalPoint <= newPoint <= decimalPoint + 1
    ensures newPoint > decimalPoint ==> buffer[0] == '1' && DecimalValue(buffer[..count]) == Pow(10, count - 1)
    ensures DecimalValue(buffer[..count]) * Pow(10, newPoint - decimalPoint) == DecimalValue(old(buffer[..count]))
    ensures forall i :: count <= i < buffer.Length ==> buffer[i] == old(buffer[i])
  {
    ghost var value := DecimalValue(buffer[..count]);
    var i := count - 1;
    while i > 0
      invariant 0 <= i < count
      invariant forall j :: 0 <= j < count && j != i ==> IsDigit(buffer[j])
      invariant '0' <= buffer[i] <= '0' + 10 as char
      invariant buffer[i] == '0' + 10 as char ==> forall j :: i < j < count ==> buffer[j] == '0'
      invariant DecimalValue(buffer[..count]) == value
      invariant forall j :: count <= j < buffer.Length ==> buffer[j] == old(buffer[j])
    {
      if buffer[i] != '0' + 10 as char {
        break;
      }
      ghost var before := buffer[..count];
      buffer[i] := '0';
      buffer[i - 1] := buffer[i - 1] + 1 as char;
      CarryUp(before, buffer[..count], i);
      i := i - 1;
    }
    newPoint := decimalPoint;
    if buffer[0] == '0' + 10 as char {
      ghost var before := buffer[..count];
      LeadingTen(before);
      buffer[0] := '1';
      newPoint := newPoint + 1;
      LeadingOne(buffer[..count]);
    }
    assert Pow(10, 0) == 1 && Pow(10, 1) == 10 * Pow(10, 0);
  }

  /** A ten at place i is worth one at the place before. */
  lemma CarryUp(s: seq<char>, t: seq<char>, i: nat)
    requires 0 < i < |s| == |t| && s[i] == '0' + 10 as char && s[i - 1] <= '9'
    requires t == s[i := '0'][i - 1 := s[i - 1] + 1 as char]
    ensures DecimalValue(s) == DecimalValue(t)
  {
    hide DecimalValue;
    var p, q := s[..i + 1], t[..i + 1];
    assert s == p + s[i + 1..] && t == q + s[i + 1..];
    DecimalConcat(p, s[i + 1..]);
    DecimalConcat(q, s[i + 1..]);
    TwoDigits(s[..i - 1], s[i - 1], s[i], p);
    TwoDigits(s[..i - 1], t[i - 1], t[i], q);
  }

  lemma TwoDigits(s: seq<char>, a: char, b: char, t: seq<char>)
    requires t == s + [a] + [b]
    ensures DecimalValue(t) == 10 * (10 * DecimalValue(s) + Digit(a)) + Digit(b)
  {
    hide DecimalValue;
    DecimalAppend(s, a);
    DecimalAppend(s + [a], b);
  }

  lemma {:induction false} LeadingTen(s: seq<char>)
    requires |s| > 0 && s[0] == '0' + 10 as char && forall j :: 0 < j < |s| ==> s[j] == '0'
    ensures DecimalValue(s) == 10 * Pow(10, |s| - 1)
  {
    if |s| > 1 {
      LeadingTen(s[..|s| - 1]);
    } else {
      assert DecimalValue(s[..0]) == 0;
    }
  }

  lemma {:induction false} LeadingOne(s: seq<char>)
    requires |s| > 0 && s[0] == '1' && forall j :: 0 < j < |s| ==> s[j] == '0'
    ensures DecimalValue(s) == Pow(10, |s| - 1)
  {
    if |s| > 1 {
      LeadingOne(s[..|s| - 1]);
    } else {
      assert DecimalValue(s[..0]) == 0;
    }
  }

  lemma AtLeastPower(n: int, num: nat, den: nat, p: nat)
    requires num >= den > 0 && RoundsHalfUp(n, num * p, den)
    ensures n >= p
  {
    MulMonotone(den, num, p);
    assert (n + 1) * den == n * den + den;
    assert p * den == den * p;
    MulCancel(p, n + 1, den);
  }

  /** A ratio of at least one fills its leading place. */
  lemma FirstDigitCounts(n: int, num: nat, den: nat, s: seq<char>)
    requires |s| > 0 && AllDigits(s) && DecimalValue(s) == n && num >= den > 0
    requires RoundsHalfUp(n, num * Pow(10, |s| - 1), den)
    ensures s[0] != '0'
  {
    hide RoundsHalfUp, DecimalValue;
    AtLeastPower(n, num, den, Pow(10, |s| - 1));
    if s[0] == '0' {
      LeadingZero(s);
    }
  }

  lemma {:induction false} LeadingZero(s: seq<char>)
    requires |s| > 0 && AllDigits(s) && s[0] == '0'
    ensures DecimalValue(s) < Pow(10, |s| - 1)
  {
    if |s| > 1 {
      LeadingZero(s[..|s| - 1]);
    } else {
      assert DecimalValue(s[..0]) == 0;
    }
  }

  /** Exactly count digits of numerator / denominator, rounded half up; a carry out of the top
      place moves the decimal point instead of adding a digit. */
  method GenerateCountedDigits(count: nat, decimalPoint: int, numerator: Bignum, denominator: Bignum,
                               buffer: array<char>) returns (newPoint: int, length: nat)
    requires numerator.Normal() && denominator.Normal() && numerator.bigits != denominator.bigits
    requires numerator != denominator && numerator.Value() < 10 * denominator.Value()
    requires denominator.Value() * 10 < Weight(numerator.bigits.Length)
    requires 0 < count <= buffer.Length
    modifies numerator, numerator.bigits, buffer
    ensures length == count && AllDigits(buffer[..count])
    ensures decimalPoint <= newPoint <= decimalPoint + 1
    ensures newPoint > decimalPoint ==> DecimalValue(buffer[..count]) == Pow(10, count - 1)
    ensures RoundsHalfUp(DecimalValue(buffer[..count]) * Pow(10, newPoint - decimalPoint),
                         old(numerator.Value()) * Pow(10, count - 1), old(denominator.Value()))
    ensures old(numerator.Value()) >= old(denominator.Value()) > 0 ==> buffer[0] != '0'
    ensures forall i :: count <= i < buffer.Length ==> buffer[i] == old(buffer[i])
  {
    hide Bignum.Valid, Bignum.Value, Bignum.IsClamped, Weight, Pow, RoundsHalfUp, DecimalValue;
    ghost var num, den := numerator.Value(), denominator.Value();
    RoundedDigits(count, numerator, denominator, buffer, num, den);
    ghost var n := DecimalValue(buffer[..count]);
    newPoint := PropagateCarry(count, decimalPoint, buffer);
    length := count;
    if num >= den > 0 && newPoint == decimalPoint {
      assert n == DecimalValue(buffer[..count]) by {
        assert Pow(10, 0) == 1 by { One(); }
      }
      FirstDigitCounts(n, num, den, buffer[..count]);
    }
  }

  /** Fixed-point output: what is written is v = numerator / denominator * 10^(decimalPoint - 1)
      rounded half up to requestedDigits places, n being that result in units of the last place. */
  method BignumToFixed(requestedDigits: nat, decimalPoint: int, numerator: Bignum, denominator: Bignum,
                       buffer: array<char>) returns (newPoint: int, length: nat, ghost n: nat)
    requires numerator.Normal() && denominator.Normal() && numerator.bigits != denominator.bigits
    requires numerator != denominator && numerator.Value() < 10 * denominator.Value()
    requires denominator.Value() * 10 < Weight(numerator.bigits.Length)
    requires 0 < buffer.Length && decimalPoint + requestedDigits <= buffer.Length
    modifies numerator, numerator.bigits, denominator, denominator.bigits, buffer
    ensures length <= buffer.Length && length <= Max(1, decimalPoint + requestedDigits) && AllDigits(buffer[..length])
    ensures newPoint + requestedDigits >= length
    ensures n == DecimalValue(buffer[..length]) * Pow(10, newPoint + requestedDigits - length)
    ensures RoundedAt(n, old(numerator.Value()), old(denominator.Value()), decimalPoint - 1 + requestedDigits)
  {
    hide Bignum.Valid, Bignum.Value, Bignum.IsClamped, Weight, Pow, RoundsHalfUp;
    ghost var num, den := numerator.Value(), denominator.Value();
    if -decimalPoint > requestedDigits {
      TooSmall(num, den, 1 - decimalPoint - requestedDigits);
      return -(requestedDigits as int), 0, 0;
    } else if -decimalPoint == requestedDigits {
      newPoint, length, n := OnlyRoundedDigit(decimalPoint, numerator, denominator, buffer);
    } else {
      var neededDigits := decimalPoint + requestedDigits;
      newPoint, length := GenerateCountedDigits(neededDigits, decimalPoint, numerator, denominator, buffer);
      n := DecimalValue(buffer[..length]) * Pow(10, newPoint - decimalPoint);
    }
  }

  lemma TooSmall(num: nat, den: nat, k: nat)
    requires num < 10 * den && k > 1
    ensures RoundsHalfUp(0, num, den * Pow(10, k))
  {
    PowMonotone(10, 2, k);
    assert Pow(10, 2) == 100;
    MulMonotone(100, Pow(10, k), den);
  }

  /** The place to round at is just above the first digit: either nothing is left or a one. */
  method OnlyRoundedDigit(decimalPoint: int, numerator: Bignum, denominator: Bignum, buffer: array<char>)
      returns (newPoint: int, length: nat, ghost n: nat)
    requires numerator.Normal() && denominator.Normal() && numerator.bigits != denominator.bigits
    requires numerator != denominator && numerator.Value() < 10 * denominator.Value()
    requires denominator.Value() * 10 < Weight(numerator.bigits.Length)
    requires 0 < buffer.Length
    modifies denominator, denominator.bigits, buffer
    ensures length <= 1 && AllDigits(buffer[..length])
    ensures newPoint == decimalPoint + length && n == DecimalValue(buffer[..length]) * Pow(10, 0)
    ensures RoundedAt(n, old(numerator.Value()), old(denominator.Value()), -1)
  {
    hide Bignum.Valid, Bignum.Value, Bignum.IsClamped, Weight;
    ghost var den := denominator.Value();
    numerator.Size();
    denominator.Size();
    denominator.Times10();
    assert den * Pow(10, 1) == 10 * den by {
      assert Pow(10, 1) == 10 * Pow(10, 0);
    }
    var compare := Bignum.PlusCompare(numerator, numerator, denominator);
    newPoint := decimalPoint;
    if compare >= 0 {
      buffer[0] := '1';
      length := 1;
      newPoint := newPoint + 1;
      assert buffer[..1] == [] + ['1'];
      DecimalAppend([], '1');
      n := 1;
    } else {
      length := 0;
      n := 0;
    }
  }
}
