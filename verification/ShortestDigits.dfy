/** Digit generation with exact integers (bignum-dtoa.cc). */
module ShortestDigits {
  import opened Arithmetic
  import opened Bigits
  import opened Bignums
  import opened Decimals
  import opened Shortest

  /** The integer part of a ratio below ten; the remainder stays in the numerator. */
  method TakeDigit(numerator: Bignum, denominator: Bignum) returns (digit: nat)
    requires numerator.Normal() && denominator.Normal() && numerator.bigits != denominator.bigits
    requires numerator.Value() < 10 * denominator.Value()
    requires denominator.Value() * 10 < Weight(numerator.bigits.Length)
    modifies numerator, numerator.bigits
    ensures numerator.Normal() && numerator.Value() < denominator.Value()
    ensures old(numerator.Value()) == digit * denominator.Value() + numerator.Value()
    ensures digit <= 9
  {
    hide Weight, Sum, Scaled;
    numerator.SmallQuotient(denominator);
    numerator.LengthFromValue(numerator.bigits.Length);
    ghost var v := numerator.Value();
    digit := numerator.DivideModuloIntBignum(denominator);
    OneDigit(v, denominator.Value(), digit, numerator.Value());
  }

  lemma OneDigit(v: nat, d: nat, digit: nat, r: nat)
    requires v == digit * d + r && v < 10 * d
    ensures digit <= 9
  {
    if digit > 9 {
      MulMonotone(10, digit, d);
      assert false;
    }
  }

  /** Takes a digit and writes it at the end of the buffer. */
  method AppendDigit(numerator: Bignum, denominator: Bignum, buffer: array<char>, length: nat) returns (digit: nat)
    requires numerator.Normal() && denominator.Normal() && numerator.bigits != denominator.bigits
    requires numerator.Value() < 10 * denominator.Value()
    requires denominator.Value() * 10 < Weight(numerator.bigits.Length)
    requires length < buffer.Length && AllDigits(buffer[..length])
    modifies numerator, numerator.bigits, buffer
    ensures numerator.Normal() && numerator.Value() < denominator.Value()
    ensures old(numerator.Value()) == digit * denominator.Value() + numerator.Value()
    ensures digit <= 9 && buffer[length] == DigitChar(digit)
    ensures AllDigits(buffer[..length + 1])
    ensures DecimalValue(buffer[..length + 1]) == 10 * DecimalValue(old(buffer[..length])) + digit
    ensures forall i :: 0 <= i < buffer.Length && i != length ==> buffer[i] == old(buffer[i])
  {
    hide Bignum.Valid, Bignum.Value, Bignum.IsClamped, Weight;
    digit := TakeDigit(numerator, denominator);
    ghost var prefix := buffer[..length];
    buffer[length] := DigitChar(digit);
    assert buffer[..length + 1] == prefix + [DigitChar(digit)];
    DecimalAppend(prefix, DigitChar(digit));
  }

  lemma AllDigitsOfNothing()
    ensures AllDigits([])
  {
  }

  /** Whether the digits so far, or their successor, already round to the number. */
  method Rooms(numerator: Bignum, denominator: Bignum, deltaMinus: Bignum, deltaPlus: Bignum, isEven: bool)
      returns (inDeltaRoomMinus: bool, inDeltaRoomPlus: bool)
    requires numerator.Normal() && denominator.Normal() && deltaMinus.Normal() && deltaPlus.Normal()
    ensures inDeltaRoomMinus <==>
              if isEven then numerator.Value() <= deltaMinus.Value() else numerator.Value() < deltaMinus.Value()
    ensures inDeltaRoomPlus <==>
              if isEven then numerator.Value() + deltaPlus.Value() >= denominator.Value()
              else numerator.Value() + deltaPlus.Value() > denominator.Value()
  {
    var below := Bignum.Compare(numerator, deltaMinus);
    inDeltaRoomMinus := if isEven then below <= 0 else below < 0;
    var above := Bignum.PlusCompare(numerator, deltaPlus, denominator);
    inDeltaRoomPlus := if isEven then above >= 0 else above > 0;
  }

  /** Everything but the denominator times ten; the two deltas may be one object. */
  method NextIteration(numerator: Bignum, deltaMinus: Bignum, deltaPlus: Bignum, ghost bound: nat)
    requires numerator.Normal() && deltaMinus.Normal() && deltaPlus.Normal()
    requires numerator.bigits != deltaMinus.bigits && numerator.bigits != deltaPlus.bigits
    requires deltaMinus == deltaPlus || deltaMinus.bigits != deltaPlus.bigits
    requires bound * 10 < Weight(numerator.bigits.Length)
    requires numerator.Value() <= bound && deltaMinus.Value() <= bound && deltaPlus.Value() <= bound
    modifies numerator, numerator.bigits, deltaMinus, deltaMinus.bigits, deltaPlus, deltaPlus.bigits
    ensures numerator.Normal() && deltaMinus.Normal() && deltaPlus.Normal()
    ensures numerator.Value() == 10 * old(numerator.Value())
    ensures deltaMinus.Value() == 10 * old(deltaMinus.Value())
    ensures deltaPlus.Value() == 10 * old(deltaPlus.Value())
  {
    hide Bignum.Valid, Bignum.Value, Bignum.IsClamped, Weight;
    numerator.Size();
    deltaMinus.Size();
    deltaPlus.Size();
    numerator.Times10();
    deltaMinus.Times10();
    if deltaMinus != deltaPlus {
      deltaPlus.Times10();
    }
  }

  /** Decides the last digit once there is room below or above. */
  method RoundLastDigit(numerator: Bignum, denominator: Bignum, buffer: array<char>, length: nat,
                        inDeltaRoomMinus: bool, inDeltaRoomPlus: bool)
    requires numerator.Normal() && denominator.Normal()
    requires 0 < length <= buffer.Length && AllDigits(buffer[..length])
    requires inDeltaRoomMinus || inDeltaRoomPlus
    requires inDeltaRoomPlus ==> buffer[length - 1] != '9'
    modifies buffer
    ensures AllDigits(buffer[..length])
    ensures forall i :: 0 <= i < buffer.Length && i != length - 1 ==> buffer[i] == old(buffer[i])
    ensures var n := DecimalValue(old(buffer[..length]));
            var twice := 2 * numerator.Value();
            DecimalValue(buffer[..length]) ==
              if inDeltaRoomMinus && inDeltaRoomPlus then
                (if twice < denominator.Value() || (twice == denominator.Value() && n % 2 == 0) then n else n + 1)
              else if inDeltaRoomMinus then n else n + 1
    ensures DecimalValue(buffer[..length]) != DecimalValue(old(buffer[..length])) || old(buffer[length - 1]) != '0' ==>
              buffer[length - 1] != '0'
  {
    ghost var n := DecimalValue(buffer[..length]);
    LastDigitParity(buffer[..length]);
    if inDeltaRoomMinus && inDeltaRoomPlus {
      var compare := Bignum.PlusCompare(numerator, numerator, denominator);
      if compare < 0 {
      } else if compare > 0 {
        Increment(buffer, length);
      } else {
        if Digit(buffer[length - 1]) % 2 == 0 {
        } else {
          Increment(buffer, length);
        }
      }
    } else if inDeltaRoomMinus {
    } else {
      Increment(buffer, length);
    }
  }

  lemma LastDigitParity(s: seq<char>)
    requires AllDigits(s) && |s| > 0
    ensures DecimalValue(s) % 2 == Digit(s[|s| - 1]) % 2
  {
  }

  method Increment(buffer: array<char>, length: nat)
    requires 0 < length <= buffer.Length && AllDigits(buffer[..length]) && buffer[length - 1] != '9'
    modifies buffer
    ensures AllDigits(buffer[..length]) && buffer[length - 1] != '0'
    ensures forall i :: 0 <= i < buffer.Length && i != length - 1 ==> buffer[i] == old(buffer[i])
    ensures DecimalValue(buffer[..length]) == DecimalValue(old(buffer[..length])) + 1
  {
    ghost var before := buffer[..length];
    buffer[length - 1] := buffer[length - 1] + 1 as char;
    assert buffer[..length][..length - 1] == before[..length - 1];
    assert before[length - 1] == old(buffer[length - 1]);
  }

  /** The state between two digits: those so far, the remainder scaled up, and no room left. */
  ghost predicate Between(t: Target, n: nat, length: nat, numerator: nat, minus: nat, plus: nat)
  {
    if length == 0 then n == 0 && numerator == t.num && minus == t.minus && plus == t.plus
    else
      && t.den > 0 && numerator % 10 == 0
      && t.Remainder(n, numerator / 10, length - 1)
      && minus == t.minus * Pow(10, length) && plus == t.plus * Pow(10, length)
      && (forall j: nat :: j < length ==> t.NoneAt(j))
      && t.num - t.minus >= t.den
      && (t.minus + t.plus) * Pow(10, length - 1) <= t.den
  }

  /** The state right after a digit was taken. */
  ghost predicate After(t: Target, n: nat, length: nat, digit: nat, numerator: nat, minus: nat, plus: nat)
  {
    && length > 0
    && t.Remainder(n, numerator, length - 1)
    && minus == t.minus * Pow(10, length - 1) && plus == t.plus * Pow(10, length - 1)
    && (forall j: nat :: j < length - 1 ==> t.NoneAt(j))
    && (length > 1 ==> t.num - t.minus >= t.den)
    && (if length == 1 then digit == n else n >= digit && (n - digit) % 10 == 0)
  }

  lemma DigitTaken(t: Target, n: nat, length: nat, numerator: nat, minus: nat, plus: nat, digit: nat, rest: nat)
    requires t.Normalized() && Between(t, n, length, numerator, minus, plus)
    requires numerator == digit * t.den + rest && rest < t.den
    ensures After(t, 10 * n + digit, length + 1, digit, rest, minus, plus)
  {
    if length == 0 {
      assert Pow(10, 0) == 1;
    } else {
      t.NextRemainder(n, numerator / 10, length - 1, digit, rest);
    }
  }

  lemma Start(t: Target)
    ensures Between(t, DecimalValue([]), 0, t.num, t.minus, t.plus)
  {
  }

  /** The comparisons of the loop decide whether there is room; a first digit zero has room above only. */
  lemma RoomsMean(t: Target, n: nat, length: nat, digit: nat, numerator: nat, minus: nat, plus: nat)
    requires t.Normalized() && After(t, n, length, digit, numerator, minus, plus)
    ensures t.InRoomMinus(numerator, length - 1) <==> if t.closed then numerator <= minus else numerator < minus
    ensures t.InRoomPlus(numerator, length - 1) <==> if t.closed then numerator + plus >= t.den else numerator + plus > t.den
    ensures length == 1 && digit == 0 ==> !t.InRoomMinus(numerator, 0) && t.InRoomPlus(numerator, 0)
  {
    if length == 1 && digit == 0 {
      FirstDigit(t, numerator);
    }
  }

  /** Stopping: rounding the last digit gives a shortest decimal, and never increments a nine. */
  lemma Stop(t: Target, n: nat, length: nat, digit: nat, numerator: nat, minus: nat, plus: nat)
    requires t.Normalized() && After(t, n, length, digit, numerator, minus, plus)
    requires t.InRoomMinus(numerator, length - 1) || t.InRoomPlus(numerator, length - 1)
    ensures t.IsShortest(t.RoundedDigits(n, numerator, length - 1), length - 1)
    ensures t.InRoomPlus(numerator, length - 1) ==> digit != 9
  {
    t.StopIsShortest(n, numerator, length - 1);
    if t.InRoomPlus(numerator, length - 1) {
      t.NoNineRoundsUp(n, numerator, length - 1, digit);
    }
  }

  lemma GoOn(t: Target, n: nat, length: nat, digit: nat, numerator: nat, minus: nat, plus: nat)
    requires t.Normalized() && After(t, n, length, digit, numerator, minus, plus)
    requires !t.InRoomMinus(numerator, length - 1) && !t.InRoomPlus(numerator, length - 1)
    ensures Between(t, n, length, 10 * numerator, 10 * minus, 10 * plus)
    ensures minus <= t.den && plus <= t.den
  {
    t.NoRoom(n, numerator, length - 1);
    Distribute(t.minus, t.plus, Pow(10, length - 1));
    if length == 1 {
      t.AboveOne(n, numerator);
    }
    TimesTen(t.minus, Pow(10, length - 1));
    TimesTen(t.plus, Pow(10, length - 1));
    assert (10 * numerator) / 10 == numerator;
  }

  lemma TimesTen(x: int, y: int)
    ensures x * (10 * y) == 10 * (x * y)
  {
  }

  lemma SoFarTooNarrow(t: Target, n: nat, length: nat, numerator: nat, minus: nat, plus: nat)
    requires length > 0 && Between(t, n, length, numerator, minus, plus)
    ensures (t.minus + t.plus) * Pow(10, length - 1) <= t.den
  {
  }

  /** The buffer lasts: it must have room for as many digits as the interval can need. */
  lemma RoomInBuffer(t: Target, n: nat, length: nat, size: nat, numerator: nat, minus: nat, plus: nat)
    requires length > 0 && size > 0 && Between(t, n, length, numerator, minus, plus)
    requires t.den < (t.minus + t.plus) * Pow(10, size - 1)
    ensures length < size
  {
    if length >= size {
      PowMonotone(10, size - 1, length - 1);
      MulMonotone(Pow(10, size - 1), Pow(10, length - 1), t.minus + t.plus);
      assert false;
    }
  }

  /** A leading zero is rounded up: below one the interval still reaches one. */
  lemma FirstDigit(t: Target, r: nat)
    requires t.Normalized() && t.Remainder(0, r, 0)
    ensures !t.InRoomMinus(r, 0) && t.InRoomPlus(r, 0)
  {
    assert Pow(10, 0) == 1;
  }

  ghost predicate Separate(numerator: Bignum, denominator: Bignum, minus: Bignum, plus: Bignum) {
    && numerator.bigits != denominator.bigits && numerator.bigits != minus.bigits && numerator.bigits != plus.bigits
    && denominator.bigits != minus.bigits && denominator.bigits != plus.bigits
    && numerator != denominator && denominator != minus && denominator != plus
    && (minus == plus || minus.bigits != plus.bigits)
  }

  /** One round of GenerateShortestDigits. */
  method GenerateDigit(numerator: Bignum, denominator: Bignum, minus: Bignum, plus: Bignum, isEven: bool,
                       buffer: array<char>, length: nat, ghost t: Target) returns (finished: bool)
    requires numerator.Normal() && denominator.Normal() && minus.Normal() && plus.Normal()
    requires Separate(numerator, denominator, minus, plus)
    requires t.Normalized() && t.closed == isEven && t.den == denominator.Value()
    requires t.den * 10 < Weight(numerator.bigits.Length)
    requires length < buffer.Length && AllDigits(buffer[..length])
    requires Between(t, DecimalValue(buffer[..length]), length, numerator.Value(), minus.Value(), plus.Value())
    modifies numerator, numerator.bigits, minus, minus.bigits, plus, plus.bigits, buffer
    ensures forall i :: 0 <= i < buffer.Length && i != length ==> buffer[i] == old(buffer[i])
    ensures AllDigits(buffer[..length + 1]) && (length == 0 ==> buffer[0] != '0')
    ensures finished ==> t.IsShortest(DecimalValue(buffer[..length + 1]), length)
    ensures !finished ==>
              && numerator.Normal() && minus.Normal() && plus.Normal()
              && Between(t, DecimalValue(buffer[..length + 1]), length + 1, numerator.Value(), minus.Value(), plus.Value())
  {
    hide Bignum.Valid, Bignum.Value, Bignum.IsClamped;
    hide Between, After, Target.IsShortest, Target.InRoomMinus, Target.InRoomPlus, Target.NoneAt;
    hide Pow, Weight, DecimalValue, AllDigits;
    ghost var n, v := DecimalValue(buffer[..length]), numerator.Value();
    ghost var below, above := minus.Value(), plus.Value();
    RatioBelowTen(t, n, length, v, below, above);
    var digit := AppendDigit(numerator, denominator, buffer, length);
    ghost var r := numerator.Value();
    DigitTaken(t, n, length, v, below, above, digit, r);
    RoomsMean(t, 10 * n + digit, length + 1, digit, r, below, above);
    var inDeltaRoomMinus, inDeltaRoomPlus := Rooms(numerator, denominator, minus, plus, isEven);
    if !inDeltaRoomMinus && !inDeltaRoomPlus {
      GoOn(t, 10 * n + digit, length + 1, digit, r, below, above);
      NextIteration(numerator, minus, plus, t.den);
      return false;
    } else {
      Stop(t, 10 * n + digit, length + 1, digit, r, below, above);
      RoundLastDigit(numerator, denominator, buffer, length + 1, inDeltaRoomMinus, inDeltaRoomPlus);
      return true;
    }
  }

  /** Free-format digit generation: the shortest decimal that rounds to the number, and of those
      the closest one. */
  method GenerateShortestDigits(numerator: Bignum, denominator: Bignum, deltaMinus: Bignum, deltaPlus: Bignum,
                                isEven: bool, buffer: array<char>, ghost t: Target) returns (length: nat)
    requires numerator.Normal() && denominator.Normal() && deltaMinus.Normal() && deltaPlus.Normal()
    requires Separate(numerator, denominator, deltaMinus, deltaPlus) && deltaMinus != deltaPlus
    requires t == Target(numerator.Value(), denominator.Value(), deltaMinus.Value(), deltaPlus.Value(), isEven)
    requires t.Normalized()
    requires denominator.Value() * 10 < Weight(numerator.bigits.Length)
    requires buffer.Length > 0 && (t.minus + t.plus) * Pow(10, buffer.Length - 1) > t.den
    modifies numerator, numerator.bigits, deltaMinus, deltaMinus.bigits, deltaPlus, deltaPlus.bigits, buffer
    ensures 0 < length <= buffer.Length && AllDigits(buffer[..length]) && buffer[0] != '0'
    ensures t.IsShortest(DecimalValue(buffer[..length]), length - 1)
    ensures length > 1 ==> (t.minus + t.plus) * Pow(10, length - 2) <= t.den
    ensures forall i :: length <= i < buffer.Length ==> buffer[i] == old(buffer[i])
  {
    hide Bignum.Valid, Bignum.Value, Bignum.IsClamped;
    hide Between, Target.IsShortest, Pow, Weight, DecimalValue, AllDigits;
    Start(t);
    AllDigitsOfNothing();
    var plus := deltaPlus;
    var same := Bignum.Compare(deltaMinus, deltaPlus);
    if same == 0 {
      plus := deltaMinus;
    }
    length := 0;
    var finished := false;
    while !finished
      invariant denominator.Normal() && denominator.Value() == t.den
      invariant length <= buffer.Length && AllDigits(buffer[..length])
      invariant length > 0 ==> buffer[0] != '0'
      invariant !finished ==>
          && length < buffer.Length
          && numerator.Normal() && deltaMinus.Normal() && plus.Normal()
          && Between(t, DecimalValue(buffer[..length]), length, numerator.Value(), deltaMinus.Value(), plus.Value())
      invariant finished ==> length > 0 && t.IsShortest(DecimalValue(buffer[..length]), length - 1)
      invariant length > 1 ==> (t.minus + t.plus) * Pow(10, length - 2) <= t.den
      invariant forall i :: length <= i < buffer.Length ==> buffer[i] == old(buffer[i])
      decreases buffer.Length - length, !finished
    {
      if length > 0 {
        SoFarTooNarrow(t, DecimalValue(buffer[..length]), length, numerator.Value(), deltaMinus.Value(), plus.Value());
      }
      finished := GenerateDigit(numerator, denominator, deltaMinus, plus, isEven, buffer, length, t);
      length := length + 1;
      if !finished {
        RoomInBuffer(t, DecimalValue(buffer[..length]), length, buffer.Length, numerator.Value(), deltaMinus.Value(), plus.Value());
      }
    }
  }

  lemma RatioBelowTen(t: Target, n: nat, length: nat, numerator: nat, minus: nat, plus: nat)
    requires t.Normalized() && Between(t, n, length, numerator, minus, plus)
    ensures numerator < 10 * t.den
  {
  }
}
