/** Decimal digit strings and the integers they stand for. */
module Decimals {
  import opened Arithmetic

  predicate IsDigit(c: char) {
    '0' <= c <= '9'
  }

  predicate AllDigits(s: seq<char>) {
    forall i :: 0 <= i < |s| ==> IsDigit(s[i])
  }

  function Digit(c: char): int {
    c as int - '0' as int
  }

  function DigitChar(d: nat): (c: char)
    requires d <= 9
    ensures IsDigit(c) && Digit(c) == d
  {
    '0' + d as char
  }

  /** The integer written by the digits of s, most significant first. */
  function DecimalValue(s: seq<char>): (v: int)
    ensures AllDigits(s) ==> v >= 0
  {
    if s == [] then 0 else 10 * DecimalValue(s[..|s| - 1]) + Digit(s[|s| - 1])
  }

  lemma {:induction false} DecimalConcat(s: seq<char>, t: seq<char>)
    ensures DecimalValue(s + t) == DecimalValue(s) * Pow(10, |t|) + DecimalValue(t)
  {
    if t == [] {
      assert s + t == s;
    } else {
      var t' := t[..|t| - 1];
      DecimalConcat(s, t');
      assert (s + t)[..|s + t| - 1] == s + t';
      MulTen(DecimalValue(s), Pow(10, |t'|));
    }
  }

  lemma MulTen(x: int, y: int)
    ensures x * (10 * y) == 10 * (x * y)
  {
  }

  lemma {:induction false} DecimalBound(s: seq<char>)
    requires AllDigits(s)
    ensures 0 <= DecimalValue(s) < Pow(10, |s|)
  {
    if s != [] {
      DecimalBound(s[..|s| - 1]);
    }
  }

  lemma DecimalAppend(s: seq<char>, c: char)
    ensures DecimalValue(s + [c]) == 10 * DecimalValue(s) + Digit(c)
  {
    assert (s + [c])[..|s|] == s;
  }

  lemma TenTo19()
    ensures Pow(10, 19) == 10_000_000_000_000_000_000
  {
    hide Pow;
    TenTo16();
    TenMore(16);
    TenMore(17);
    TenMore(18);
  }

  /** Up to 19 digits are read into a 64-bit word without wrapping. */
  method ReadUInt64(buffer: seq<char>, from: nat, digitsToRead: nat) returns (result: nat)
    requires AllDigits(buffer) && from + digitsToRead <= |buffer| && digitsToRead <= 19
    ensures result == DecimalValue(buffer[from..from + digitsToRead]) < 0x1_0000_0000_0000_0000
  {
    hide DecimalValue, Pow;
    TenTo19();
    NoDigits();
    assert buffer[from..from] == [];
    result := 0;
    var i := from;
    while i < from + digitsToRead
      invariant from <= i <= from + digitsToRead
      invariant result == DecimalValue(buffer[from..i])
    {
      var digit := Digit(buffer[i]);
      assert buffer[from..i + 1] == buffer[from..i] + [buffer[i]];
      DecimalAppend(buffer[from..i], buffer[i]);
      DecimalBound(buffer[from..i + 1]);
      PowMonotone(10, i + 1 - from, 19);
      result := result * 10 + digit;
      i := i + 1;
    }
    DecimalBound(buffer[from..i]);
    PowMonotone(10, i - from, 19);
  }

  lemma {:induction false} SameValueSameDigits(s: seq<char>, t: seq<char>)
    requires AllDigits(s) && AllDigits(t) && |s| == |t| && DecimalValue(s) == DecimalValue(t)
    ensures s == t
  {
    if s != [] {
      var s', t' := s[..|s| - 1], t[..|t| - 1];
      assert s == s' + [s[|s| - 1]] && t == t' + [t[|t| - 1]];
      SameValueSameDigits(s', t');
    }
  }

  lemma NoDigits()
    ensures DecimalValue([]) == 0
  {
  }

  lemma LeadingNonZero(s: seq<char>)
    requires AllDigits(s) && |s| > 0 && s[0] != '0'
    ensures 0 < Pow(10, |s| - 1) <= DecimalValue(s) < Pow(10, |s|)
  {
    hide DecimalValue;
    DecimalBound(s);
    var head, tail := s[..1], s[1..];
    assert s == head + tail;
    DecimalConcat(head, tail);
    DecimalBound(tail);
    assert head == [] + [s[0]];
    DecimalAppend([], s[0]);
    NoDigits();
    MulMonotone(1, DecimalValue(head), Pow(10, |tail|));
  }

  /** The digits at the head of a text. */
  function DigitsOf(s: string): (r: string)
    ensures AllDigits(r) && r <= s && (|r| < |s| ==> !IsDigit(s[|r|]))
  {
    if s == [] || !IsDigit(s[0]) then [] else [s[0]] + DigitsOf(s[1..])
  }

  lemma DigitsFrom(s: string, b: nat)
    requires b < |s|
    ensures DigitsOf(s[b..]) == if IsDigit(s[b]) then [s[b]] + DigitsOf(s[b + 1..]) else []
  {
    assert s[b..][1..] == s[b + 1..];
  }

  lemma NoMoreDigits(s: string, m: nat)
    requires m == |s|
    ensures DigitsOf(s[m..]) == []
  {
  }

  lemma {:induction false} DigitsThen(s: string, rest: string)
    requires AllDigits(s) && (rest == "" || !IsDigit(rest[0]))
    ensures DigitsOf(s + rest) == s
  {
    if s == "" {
      assert s + rest == rest;
    } else {
      assert (s + rest)[1..] == s[1..] + rest;
      DigitsThen(s[1..], rest);
    }
  }

  lemma DigitsAre(s: string)
    ensures AllDigits(DigitsOf(s))
  {
  }

  lemma LeadingDigit(s: seq<char>)
    requires |s| > 0
    ensures DecimalValue(s) == Digit(s[0]) * Pow(10, |s| - 1) + DecimalValue(s[1..])
  {
    hide Pow, DecimalValue;
    NoDigits();
    DecimalAppend([], s[0]);
    assert s == [] + [s[0]] + s[1..];
    DecimalConcat([] + [s[0]], s[1..]);
  }

  lemma AllButFirst(s: seq<char>)
    requires |s| > 0 && IsDigit(s[0])
    ensures AllDigits(s) <==> AllDigits(s[1..])
  {
    if AllDigits(s[1..]) {
      forall i | 0 <= i < |s| ensures IsDigit(s[i]) {
        if i > 0 {
          assert s[1..][i - 1] == s[i];
        }
      }
    }
  }

  /** Leading zeros count for nothing. */
  lemma {:induction false} LeadingZeros(s: seq<char>, first: nat)
    requires first <= |s| && forall k :: 0 <= k < first ==> s[k] == '0'
    ensures DecimalValue(s) == DecimalValue(s[first..]) && (AllDigits(s) <==> AllDigits(s[first..]))
  {
    hide Pow, DecimalValue;
    if first == 0 {
      assert s[0..] == s;
    } else {
      LeadingDigit(s);
      LeadingZeros(s[1..], first - 1);
      assert s[1..][first - 1..] == s[first..];
      AllButFirst(s);
    }
  }

  lemma FrontDigit(c: char, s: seq<char>)
    requires IsDigit(c)
    ensures DecimalValue([c] + s) == Digit(c) * Pow(10, |s|) + DecimalValue(s)
    ensures AllDigits(s) ==> AllDigits([c] + s)
  {
    hide DecimalValue, Pow;
    DecimalConcat([c], s);
    assert [c] == [] + [c];
    DecimalAppend([], c);
    NoDigits();
  }

  lemma AllDigitsConcat(s: seq<char>, t: seq<char>)
    requires AllDigits(s) && AllDigits(t)
    ensures AllDigits(s + t)
  {
  }
}
