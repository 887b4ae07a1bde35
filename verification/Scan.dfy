/** Reading a decimal number from text (StringToIeee in double-conversion.cc). */
module Scanning {
  import opened Arithmetic
  import opened Cutting
  import opened Decimals
  import opened DiyFpStrtods
  import opened Ieee
  import opened Strtods
  import Intervals

  const MAX_SIGNIFICANT_DIGITS: nat := 772
  const BUFFER_SIZE: nat := 782
  const MAX_EXPONENT_VALUE: nat := 1073741823

  // ----- What a text says -----

  /** A number as it is written: m * 10^p. */
  datatype Written = NotANumber | Number(m: nat, p: int)

  datatype Flags = Flags(allowTrailingJunk: bool, allowTrailingSpaces: bool)

  function SignLength(text: string): nat {
    if text != [] && (text[0] == '+' || text[0] == '-') then 1 else 0
  }

  /** Digits, a point and more digits, at least one in all; where they end, and how many follow the point. */
  datatype Mantissa = Mantissa(digits: string, fraction: nat, end: nat)

  function MantissaOf(s: string): (r: Mantissa)
    ensures AllDigits(r.digits) && r.fraction <= |r.digits| <= r.end <= |s|
  {
    var whole := DigitsOf(s);
    if |whole| < |s| && s[|whole|] == '.' then
      var fraction := DigitsOf(s[|whole| + 1..]);
      Mantissa(whole + fraction, |fraction|, |whole| + 1 + |fraction|)
    else Mantissa(whole, 0, |whole|)
  }

  function TrailingOk(s: string, flags: Flags): bool {
    flags.allowTrailingJunk || (if flags.allowTrailingSpaces then forall i :: 0 <= i < |s| ==> s[i] == ' ' else s == [])
  }

  /** The exponent behind the mantissa, if there is one: none of its digits makes it junk. */
  datatype Power = BadPower | Power(value: int, end: nat)

  function PowerOf(s: string, flags: Flags): (r: Power)
    ensures r.Power? ==> r.end <= |s|
  {
    if s == [] || !(s[0] == 'e' || s[0] == 'E') then Power(0, 0)
    else
      var sign := SignLength(s[1..]);
      var digits := DigitsOf(s[1 + sign..]);
      if digits == [] then if flags.allowTrailingJunk then Power(0, 0) else BadPower
      else Power(if sign == 1 && s[1] == '-' then -DecimalValue(digits) else DecimalValue(digits), 1 + sign + |digits|)
  }

  /** The number that a text without a sign writes, exactly. */
  function Magnitude(s: string, flags: Flags): Written {
    var mantissa := MantissaOf(s);
    if mantissa.digits == [] then NotANumber
    else
      var power := PowerOf(s[mantissa.end..], flags);
      if power.BadPower? || !TrailingOk(s[mantissa.end + power.end..], flags) then NotANumber
      else Number(NatValue(mantissa.digits), power.value - mantissa.fraction)
  }

  function NatValue(s: string): nat
    requires AllDigits(s)
  {
    DecimalValue(s)
  }

  lemma MantissaIs(whole: string, fraction: string, rest: string)
    requires AllDigits(whole) && AllDigits(fraction) && (rest == "" || !IsDigit(rest[0]))
    ensures rest == "" || rest[0] != '.' ==> MantissaOf(whole + rest) == Mantissa(whole, 0, |whole|)
    ensures MantissaOf(whole + "." + fraction + rest) == Mantissa(whole + fraction, |fraction|, |whole| + 1 + |fraction|)
  {
    hide DigitsOf;
    DigitsThen(whole, rest);
    var s := whole + "." + fraction + rest;
    assert s == whole + ("." + fraction + rest);
    DigitsThen(whole, "." + fraction + rest);
    assert s[|whole| + 1..] == fraction + rest;
    DigitsThen(fraction, rest);
  }

  /** An exponent character, a sign or none, and digits; or nothing, for zero. */
  predicate ExponentPart(s: string, value: int) {
    if s == "" then value == 0
    else
      var signed := |s| > 1 && (s[1] == '+' || s[1] == '-');
      var digits := s[if signed then 2 else 1..];
      && (s[0] == 'e' || s[0] == 'E') && digits != "" && AllDigits(digits)
      && value == if signed && s[1] == '-' then -DecimalValue(digits) else DecimalValue(digits)
  }

  /** The number, with a point or an exponent or without, ends where rest begins. */
  predicate Stops(rest: string, point: bool, power: string) {
    && (rest == "" || !IsDigit(rest[0]))
    && (power == "" && rest != "" ==> rest[0] != 'e' && rest[0] != 'E' && (rest[0] == '.' ==> point))
  }

  /** Digits, a point and an exponent write what they seem to; whatever follows makes them no number, unless junk is allowed, or
      they are spaces and those are allowed. */
  lemma WrittenNumber(s: string, whole: string, point: bool, fraction: string, power: string, value: int, rest: string, flags: Flags)
    requires AllDigits(whole) && AllDigits(fraction) && whole + fraction != "" && (!point ==> fraction == "")
    requires ExponentPart(power, value) && Stops(rest, point, power)
    requires s == whole + (if point then "." + fraction else "") + (power + rest)
    ensures AllDigits(whole + fraction)
    ensures Magnitude(s, flags)
         == if flags.allowTrailingJunk || rest == "" || (flags.allowTrailingSpaces && forall i :: 0 <= i < |rest| ==> rest[i] == ' ')
            then Number(NatValue(whole + fraction), value - |fraction|) else NotANumber
  {
    hide DecimalValue, MantissaOf, DigitsOf, PowerOf, AllDigits, Magnitude;
    var tail := power + rest;
    AllDigitsConcat(whole, fraction);
    TailStops(point, power, value, rest);
    WrittenMantissa(s, whole, point, fraction, tail);
    WrittenPower(power, value, rest, point, flags);
    var end := |s| - |tail|;
    assert s[end + |power|..] == s[end..][|power|..];
    MagnitudeIs(s, whole + fraction, |fraction|, end, value, |power|, rest, flags);
  }

  lemma MagnitudeIs(s: string, digits: string, fraction: nat, end: nat, value: int, length: nat, rest: string, flags: Flags)
    requires AllDigits(digits) && digits != "" && MantissaOf(s) == Mantissa(digits, fraction, end)
    requires end + length <= |s| && PowerOf(s[end..], flags) == Power(value, length) && s[end + length..] == rest
    ensures Magnitude(s, flags)
         == if flags.allowTrailingJunk || rest == "" || (flags.allowTrailingSpaces && forall i :: 0 <= i < |rest| ==> rest[i] == ' ')
            then Number(NatValue(digits), value - fraction) else NotANumber
  {
    hide MantissaOf, PowerOf, DigitsOf, AllDigits, NatValue;
  }

  lemma TailStops(point: bool, power: string, value: int, rest: string)
    requires ExponentPart(power, value) && Stops(rest, point, power)
    ensures var tail := power + rest;
            (tail == "" || (!IsDigit(tail[0]) && (tail[0] == '.' ==> point))) && tail[|power|..] == rest
  {
    hide DecimalValue, AllDigits;
    var tail := power + rest;
    assert power == "" ==> tail == rest;
    assert power != "" ==> tail[0] == power[0];
  }

  lemma WrittenMantissa(s: string, whole: string, point: bool, fraction: string, tail: string)
    requires AllDigits(whole) && AllDigits(fraction) && (!point ==> fraction == "")
    requires tail == "" || (!IsDigit(tail[0]) && (tail[0] == '.' ==> point))
    requires s == whole + (if point then "." + fraction else "") + tail
    ensures MantissaOf(s) == Mantissa(whole + fraction, |fraction|, |s| - |tail|) && s[|s| - |tail|..] == tail
  {
    hide MantissaOf, AllDigits;
    MantissaIs(whole, fraction, tail);
    if point {
      assert s == whole + "." + fraction + tail;
    } else {
      assert s == whole + tail && whole + fraction == whole;
    }
  }

  lemma WrittenPower(power: string, value: int, rest: string, point: bool, flags: Flags)
    requires ExponentPart(power, value) && Stops(rest, point, power)
    ensures PowerOf(power + rest, flags) == Power(value, |power|)
  {
    hide DecimalValue, DigitsOf;
    var s := power + rest;
    if power == "" {
      assert s == rest;
    } else {
      var sign := if |power| > 1 && (power[1] == '+' || power[1] == '-') then 1 else 0;
      var digits := power[1 + sign..];
      assert s[1..] == power[1..] + rest;
      assert s[1 + sign..] == digits + rest;
      assert sign == 0 ==> IsDigit(s[1]) by {
        if sign == 0 { assert s[1] == digits[0]; }
      }
      DigitsThen(digits, rest);
    }
  }

  // ----- Digits into the buffer -----

  /** What is kept of the significant digits: the first 772, and whether any of the others is not zero. */
  ghost predicate Kept(all: string, kept: string, nonzeroDropped: bool) {
    && AllDigits(all) && |kept| == Min(|all|, MAX_SIGNIFICANT_DIGITS) && kept == all[..|kept|]
    && (nonzeroDropped <==> exists i :: |kept| <= i < |all| && all[i] != '0')
  }

  /** One digit: stored while there is room, and from then on only looked at. */
  method CopyDigit(c: char, buffer: array<char>, pos0: nat, dropped0: bool, ghost all: string) returns (pos: nat, dropped: bool)
    requires buffer.Length == BUFFER_SIZE && pos0 <= MAX_SIGNIFICANT_DIGITS && Kept(all, buffer[..pos0], dropped0) && IsDigit(c)
    modifies buffer
    ensures pos0 <= pos <= pos0 + 1 && pos <= MAX_SIGNIFICANT_DIGITS && Kept(all + [c], buffer[..pos], dropped)
  {
    hide Kept;
    pos, dropped := pos0, dropped0;
    ghost var kept := buffer[..pos];
    if pos < MAX_SIGNIFICANT_DIGITS {
      buffer[pos] := c;
      pos := pos + 1;
      assert buffer[..pos] == kept + [c];
      KeptOneMore(all, kept, dropped, c);
    } else {
      KeptNoMore(all, kept, dropped, c);
      dropped := dropped || c != '0';
    }
  }

  /** The loop that copies digits, of the integer part and of the fraction alike. */
  method CopyDigits(text: string, from: nat, buffer: array<char>, pos0: nat, dropped0: bool, ghost all: string)
      returns (current: nat, pos: nat, dropped: bool)
    requires from <= |text| && buffer.Length == BUFFER_SIZE && pos0 <= MAX_SIGNIFICANT_DIGITS && Kept(all, buffer[..pos0], dropped0)
    modifies buffer
    ensures pos0 <= pos <= MAX_SIGNIFICANT_DIGITS && current == from + |DigitsOf(text[from..])| <= |text|
    ensures Kept(all + DigitsOf(text[from..]), buffer[..pos], dropped)
    ensures pos - pos0 <= current - from
  {
    hide DigitsOf, Kept, AllDigits;
    current, pos, dropped := from, pos0, dropped0;
    assert all + text[from..current] == all;
    while current < |text| && IsDigit(text[current])
      invariant from <= current <= |text| && pos0 <= pos <= MAX_SIGNIFICANT_DIGITS
      invariant DigitsOf(text[from..]) == text[from..current] + DigitsOf(text[current..])
      invariant Kept(all + text[from..current], buffer[..pos], dropped)
      invariant pos - pos0 <= current - from
    {
      DigitsFrom(text, current);
      assert text[from..current + 1] == text[from..current] + [text[current]];
      assert all + text[from..current + 1] == all + text[from..current] + [text[current]];
      pos, dropped := CopyDigit(text[current], buffer, pos, dropped, all + text[from..current]);
      current := current + 1;
    }
    if current < |text| {
      DigitsFrom(text, current);
    } else {
      NoMoreDigits(text, current);
    }
    assert DigitsOf(text[from..]) == text[from..current] + [] == text[from..current];
  }

  lemma KeptOneMore(all: string, kept: string, dropped: bool, c: char)
    requires Kept(all, kept, dropped) && |kept| < MAX_SIGNIFICANT_DIGITS && IsDigit(c)
    ensures Kept(all + [c], kept + [c], dropped)
  {
  }

  lemma KeptNoMore(all: string, kept: string, dropped: bool, c: char)
    requires Kept(all, kept, dropped) && |kept| == MAX_SIGNIFICANT_DIGITS && IsDigit(c)
    ensures Kept(all + [c], kept, dropped || c != '0')
  {
    var more := all + [c];
    assert more[..|kept|] == all[..|kept|];
    if dropped {
      var i :| |kept| <= i < |all| && all[i] != '0';
      assert more[i] != '0';
    }
    if c != '0' {
      assert more[|all|] != '0';
    }
    if i :| |kept| <= i < |more| && more[i] != '0' {
      assert i == |all| || all[i] != '0';
    }
  }

  lemma NothingKept()
    ensures Kept([], [], false) && AllDigits([])
  {
  }

  method SkipZeros(text: string, from: nat) returns (current: nat)
    requires from <= |text|
    ensures from <= current <= |text| && (forall i :: from <= i < current ==> text[i] == '0')
    ensures current < |text| ==> text[current] != '0'
  {
    current := from;
    while current < |text| && text[current] == '0'
      invariant from <= current <= |text| && forall i :: from <= i < current ==> text[i] == '0'
    {
      current := current + 1;
    }
  }

  /** Digits that start with zeros. */
  lemma DigitsBehindZeros(s: string, zeros: nat)
    requires zeros <= |s| && forall i :: 0 <= i < zeros ==> s[i] == '0'
    ensures |DigitsOf(s)| == zeros + |DigitsOf(s[zeros..])| && DigitsOf(s)[zeros..] == DigitsOf(s[zeros..])
    ensures forall i :: 0 <= i < zeros ==> DigitsOf(s)[i] == '0'
    decreases zeros
  {
    if zeros == 0 {
      assert s[0..] == s;
    } else {
      DigitsBehindZeros(s[1..], zeros - 1);
      assert s[1..][zeros - 1..] == s[zeros..];
    }
  }

  // ----- The mantissa -----

  /** What the scan of the mantissa has found: significant digits from the first that is not zero, of which the first 772
      are in the buffer, and the exponent that goes with them. */
  ghost predicate Scanned(mantissa: Mantissa, all: string, kept: string, dropped: bool, exponent: int) {
    && Kept(all, kept, dropped) && (all != [] ==> all[0] != '0')
    && DecimalValue(all) == DecimalValue(mantissa.digits)
    && exponent == |all| - |kept| - mantissa.fraction
  }

  /** The integer part: leading zeros are skipped, and digits beyond the 772nd count for the exponent. */
  method ScanInteger(text: string, from: nat, buffer: array<char>)
      returns (current: nat, pos: nat, dropped: bool, insignificant: nat, ghost all: string)
    requires from <= |text| && buffer.Length == BUFFER_SIZE
    modifies buffer
    ensures var whole := DigitsOf(text[from..]);
            && current == from + |whole| <= |text| && pos <= MAX_SIGNIFICANT_DIGITS
            && Scanned(Mantissa(whole, 0, |whole|), all, buffer[..pos], dropped, insignificant)
            && |all| <= |whole| && pos <= |whole|
  {
    hide DigitsOf, Kept, DecimalValue;
    var start := SkipZeros(text, from);
    DigitsBehindZeros(text[from..], start - from);
    assert text[from..][start - from..] == text[start..];
    NothingKept();
    assert buffer[..0] == [];
    current, pos, dropped := CopyDigits(text, start, buffer, 0, false, []);
    all := DigitsOf(text[start..]);
    assert [] + all == all;
    insignificant := current - start - pos;
    DigitsAre(text[from..]);
    LeadingZeros(DigitsOf(text[from..]), start - from);
    FirstOfDigits(text, start);
    KeptLength(all, buffer[..pos], dropped);
  }

  lemma FirstOfDigits(text: string, b: nat)
    requires b <= |text|
    ensures DigitsOf(text[b..]) != [] ==> b < |text| && DigitsOf(text[b..])[0] == text[b]
  {
  }

  lemma KeptLength(all: string, kept: string, dropped: bool)
    requires Kept(all, kept, dropped)
    ensures |kept| <= |all| && |kept| == Min(|all|, MAX_SIGNIFICANT_DIGITS) && AllDigits(all)
  {
  }

  /** The digits behind the point; where no digit was significant yet, zeros only move the exponent. */
  method ScanFraction(text: string, from: nat, buffer: array<char>, pos0: nat, dropped0: bool, insignificant: nat,
                      ghost whole: string, ghost all0: string)
      returns (current: nat, pos: nat, dropped: bool, exponent: int, ghost all: string)
    requires from <= |text| && buffer.Length == BUFFER_SIZE && pos0 <= MAX_SIGNIFICANT_DIGITS && AllDigits(whole)
    requires Scanned(Mantissa(whole, 0, |whole|), all0, buffer[..pos0], dropped0, insignificant)
    modifies buffer
    ensures var fraction := DigitsOf(text[from..]);
            && current == from + |fraction| <= |text| && pos0 <= pos <= MAX_SIGNIFICANT_DIGITS
            && Scanned(Mantissa(whole + fraction, |fraction|, 0), all, buffer[..pos], dropped, exponent + insignificant)
            && |all| <= |all0| + |fraction| && -|fraction| <= exponent <= 0 && pos - pos0 <= |fraction| && (exponent == 0 && pos == pos0 ==> fraction == [] || pos0 == MAX_SIGNIFICANT_DIGITS)
  {
    hide DigitsOf, Kept, DecimalValue;
    KeptLength(all0, buffer[..pos0], dropped0);
    var start := from;
    exponent := 0;
    if pos0 == 0 {
      start := SkipZeros(text, from);
      exponent := from - start;
    }
    DigitsBehindZeros(text[from..], start - from);
    assert text[from..][start - from..] == text[start..];
    current, pos, dropped := CopyDigits(text, start, buffer, pos0, dropped0, all0);
    exponent := exponent - (pos - pos0);
    all := all0 + DigitsOf(text[start..]);
    KeptLength(all, buffer[..pos], dropped);
    FractionValue(whole, DigitsOf(text[from..]), start - from, all0) by { DigitsAre(text[from..]); }
    FirstOfDigits(text, start);
  }

  /** Zeros behind the point count for nothing while no digit was significant. */
  lemma FractionValue(whole: string, fraction: string, zeros: nat, all0: string)
    requires AllDigits(whole) && AllDigits(fraction) && AllDigits(all0) && DecimalValue(all0) == DecimalValue(whole)
    requires zeros <= |fraction| && (zeros > 0 ==> all0 == []) && forall i :: 0 <= i < zeros ==> fraction[i] == '0'
    ensures DecimalValue(whole + fraction) == DecimalValue(all0 + fraction[zeros..])
  {
    hide Pow, DecimalValue;
    DecimalConcat(whole, fraction);
    DecimalConcat(all0, fraction[zeros..]);
    LeadingZeros(fraction, zeros);
    if zeros > 0 {
      NoDigits();
    } else {
      assert fraction[0..] == fraction;
    }
  }

  /** Integer part, point and fraction; there must be a digit somewhere. */
  method ScanMantissa(text: string, from: nat, buffer: array<char>)
      returns (ok: bool, current: nat, pos: nat, dropped: bool, exponent: int, ghost all: string)
    requires from <= |text| && buffer.Length == BUFFER_SIZE
    modifies buffer
    ensures pos <= MAX_SIGNIFICANT_DIGITS && from <= current <= |text|
    ensures ok <==> MantissaOf(text[from..]).digits != []
    ensures ok ==> current == from + MantissaOf(text[from..]).end
                   && Scanned(MantissaOf(text[from..]), all, buffer[..pos], dropped, exponent)
    ensures -(|text| as int) <= exponent <= |text| && |all| <= |text|
  {
    hide DigitsOf, Kept, DecimalValue;
    var insignificant;
    current, pos, dropped, insignificant, all := ScanInteger(text, from, buffer);
    ghost var whole := DigitsOf(text[from..]);
    DigitsAre(text[from..]);
    KeptLength(all, buffer[..pos], dropped);
    if current < |text| && text[current] == '.' {
      var leadingZero := current > from && pos == 0;
      var fractional;
      ghost var middle, pos0 := current + 1, pos;
      assert text[from..][|whole| + 1..] == text[middle..];
      current, pos, dropped, fractional, all := ScanFraction(text, current + 1, buffer, pos, dropped, insignificant, whole, all);
      KeptLength(all, buffer[..pos], dropped);
      exponent := fractional + insignificant;
      FractionIsShort(whole, DigitsOf(text[middle..]), all, buffer[..pos], dropped, exponent);
      ok := !(!leadingZero && fractional == 0 && pos == 0);
    } else {
      exponent := insignificant;
      ok := current > from;
    }
  }

  lemma FractionIsShort(whole: string, fraction: string, all: string, kept: string, dropped: bool, exponent: int)
    requires AllDigits(whole) && AllDigits(fraction) && Scanned(Mantissa(whole + fraction, |fraction|, 0), all, kept, dropped, exponent)
    ensures exponent >= -|fraction|
  {
    hide DecimalValue;
  }

  // ----- The exponent -----

  /** One more digit of the exponent, checked before it could overflow. */
  method PushDigit(num: nat, digit: nat, ghost value: nat) returns (next: nat)
    requires digit <= 9 && num == Min(value, MAX_EXPONENT_VALUE)
    ensures next == Min(10 * value + digit, MAX_EXPONENT_VALUE)
  {
    if num >= MAX_EXPONENT_VALUE / 10 && !(num == MAX_EXPONENT_VALUE / 10 && digit <= MAX_EXPONENT_VALUE % 10) {
      next := MAX_EXPONENT_VALUE;
    } else {
      next := num * 10 + digit;
    }
  }

  lemma OneMoreDigit(s: string, c: char)
    requires AllDigits(s) && IsDigit(c)
    ensures AllDigits(s + [c]) && 0 <= DecimalValue(s) && DecimalValue(s + [c]) == 10 * DecimalValue(s) + Digit(c)
  {
    DecimalAppend(s, c);
    DecimalBound(s);
  }

  lemma DigitsJoin(text: string, b: nat, read: string)
    requires b < |text| && IsDigit(text[b])
    ensures read + DigitsOf(text[b..]) == read + [text[b]] + DigitsOf(text[b + 1..])
  {
    hide DigitsOf;
    DigitsFrom(text, b);
  }

  /** The written exponent, as large as a 32-bit word is allowed to get. */
  method ScanNumber(text: string, from: nat) returns (current: nat, num: nat)
    requires from <= |text|
    ensures current == from + |DigitsOf(text[from..])| <= |text|
    ensures num == Min(DecimalValue(DigitsOf(text[from..])), MAX_EXPONENT_VALUE)
  {
    hide DigitsOf, DecimalValue, AllDigits;
    current := from;
    num := 0;
    NoDigits();
    NothingKept();
    ghost var read := "";
    while current < |text| && IsDigit(text[current])
      invariant from <= current <= |text| && |read| == current - from && AllDigits(read)
      invariant DigitsOf(text[from..]) == read + DigitsOf(text[current..])
      invariant num == Min(DecimalValue(read), MAX_EXPONENT_VALUE)
    {
      DigitsJoin(text, current, read);
      OneMoreDigit(read, text[current]);
      num := PushDigit(num, Digit(text[current]), DecimalValue(read));
      read := read + [text[current]];
      current := current + 1;
    }
    if current < |text| {
      DigitsFrom(text, current);
    } else {
      NoMoreDigits(text, current);
    }
    assert DigitsOf(text[from..]) == read + [] == read;
  }

  /** The value of the exponent part, clamped. */
  function Clamped(x: int): int {
    if x > MAX_EXPONENT_VALUE then MAX_EXPONENT_VALUE else if x < -(MAX_EXPONENT_VALUE as int) then -(MAX_EXPONENT_VALUE as int) else x
  }

  /** The exponent part; what is no exponent is left for the check of what follows, where junk is allowed. */
  method ScanPower(text: string, from: nat, flags: Flags) returns (ok: bool, current: nat, value: int)
    requires from <= |text|
    ensures ok <==> PowerOf(text[from..], flags).Power?
    ensures ok ==> var power := PowerOf(text[from..], flags); value == Clamped(power.value) && current == from + power.end <= |text|
  {
    hide DigitsOf, DecimalValue;
    if from == |text| || !(text[from] == 'e' || text[from] == 'E') {
      return true, from, 0;
    }
    current := from + 1;
    assert text[from..][1..] == text[current..];
    var negative := false;
    ghost var sign := SignLength(text[current..]);
    if current < |text| && (text[current] == '+' || text[current] == '-') {
      negative := text[current] == '-';
      current := current + 1;
    }
    assert text[from..][1 + sign..] == text[current..];
    if current == |text| {
      NoMoreDigits(text, current);
      return flags.allowTrailingJunk, from, 0;
    }
    DigitsFrom(text, current);
    if !IsDigit(text[current]) {
      return flags.allowTrailingJunk, from, 0;
    }
    ghost var digits := DigitsOf(text[current..]);
    DigitsAre(text[current..]);
    DecimalBound(digits);
    var num;
    current, num := ScanNumber(text, current);
    return true, current, if negative then -(num as int) else num;
  }

  method SpacesOnly(text: string, from: nat) returns (r: bool)
    requires from <= |text|
    ensures r <==> forall i :: from <= i < |text| ==> text[i] == ' '
  {
    var current := from;
    while current < |text|
      invariant from <= current <= |text| && forall i :: from <= i < current ==> text[i] == ' '
    {
      if text[current] != ' ' {
        return false;
      }
      current := current + 1;
    }
    r := true;
  }

  method CheckTrailing(text: string, from: nat, flags: Flags) returns (ok: bool)
    requires from <= |text|
    ensures ok <==> TrailingOk(text[from..], flags)
  {
    if flags.allowTrailingJunk {
      return true;
    }
    if !flags.allowTrailingSpaces {
      return from == |text|;
    }
    ok := SpacesOnly(text, from);
    assert (forall i :: from <= i < |text| ==> text[i] == ' ') <==> (forall i :: 0 <= i < |text[from..]| ==> text[from..][i] == ' ') by {
      forall i | from <= i < |text| ensures text[i] == text[from..][i - from] {
      }
    }
  }

  // ----- The number -----

  /** The digits that go to Strtod: what was kept, and a one for all that was dropped, if any of it counted. */
  ghost function Final(kept: string, dropped: bool): string {
    if dropped then kept + ['1'] else kept
  }

  lemma FinalDigits(all: string, kept: string, dropped: bool)
    requires Kept(all, kept, dropped) && (all != [] ==> all[0] != '0')
    ensures AllDigits(Final(kept, dropped)) && |Final(kept, dropped)| <= MAX_SIGNIFICANT_DIGITS + 1
    ensures all == [] <==> Final(kept, dropped) == []
    ensures all != [] ==> Final(kept, dropped)[0] != '0'
  {
    if all != [] {
      assert kept[0] == all[0];
    }
  }

  /** Cutting after 772 digits, with a one for what is cut off, never changes the rounding. */
  lemma KeptRounds(mantissa: Mantissa, all: string, kept: string, dropped: bool, exponent: int, power: int)
    requires Scanned(mantissa, all, kept, dropped, exponent) && AllDigits(mantissa.digits)
    ensures 0 <= DecimalValue(mantissa.digits) && AllDigits(Final(kept, dropped)) && 0 <= DecimalValue(Final(kept, dropped))
    ensures SameSides(DecimalValue(mantissa.digits), power - mantissa.fraction,
                      DecimalValue(Final(kept, dropped)), exponent + power - (if dropped then 1 else 0))
  {
    hide Pow, DecimalValue, SameSides, AllDigits;
    FinalDigits(all, kept, dropped);
    DecimalBound(mantissa.digits);
    DecimalBound(Final(kept, dropped));
    if |all| <= MAX_SIGNIFICANT_DIGITS {
      NoneDropped(all, kept, dropped);
      SameNumber(DecimalValue(all), power - mantissa.fraction);
    } else {
      var r: nat := |all| - MAX_SIGNIFICANT_DIGITS;
      var tail := all[MAX_SIGNIFICANT_DIGITS..];
      KeptParts(all, kept, dropped, tail);
      DecimalConcat(kept, tail);
      if dropped {
        DecimalAppend(kept, '1');
        LeadingNonZero(kept);
        DecimalBound(tail);
        CutKeepsSides(DecimalValue(kept), DecimalValue(tail), r, power - mantissa.fraction);
      } else {
        TrimKeepsSides(DecimalValue(kept), r, power - mantissa.fraction);
      }
    }
  }

  lemma NoneDropped(all: string, kept: string, dropped: bool)
    requires Kept(all, kept, dropped) && |all| <= MAX_SIGNIFICANT_DIGITS
    ensures kept == all && !dropped
  {
  }

  lemma SameNumber(m: nat, p: int)
    ensures SameSides(m, p, m, p)
  {
  }

  lemma KeptParts(all: string, kept: string, dropped: bool, tail: string)
    requires Kept(all, kept, dropped) && |all| > MAX_SIGNIFICANT_DIGITS && tail == all[MAX_SIGNIFICANT_DIGITS..] && all[0] != '0'
    ensures all == kept + tail && |kept| == MAX_SIGNIFICANT_DIGITS && AllDigits(kept) && AllDigits(tail) && kept[0] != '0'
    ensures dropped <==> DecimalValue(tail) > 0
  {
    hide DecimalValue;
    if dropped {
      var i :| |kept| <= i < |all| && all[i] != '0';
      SomeDigit(tail, i - |kept|);
    } else {
      forall j | 0 <= j < |tail| ensures tail[j] == '0' {
        assert tail[j] == all[|kept| + j];
      }
      LeadingZeros(tail, |tail|);
      NoDigits();
      assert tail[|tail|..] == [];
    }
  }

  lemma {:induction false} SomeDigit(s: string, i: nat)
    requires AllDigits(s) && i < |s| && s[i] != '0'
    ensures DecimalValue(s) > 0
  {
    if i < |s| - 1 {
      SomeDigit(s[..|s| - 1], i);
    } else {
      DecimalBound(s[..|s| - 1]);
    }
  }

  /** An exponent beyond what is kept of it gives infinity or zero in any case. */
  lemma ClampIsHarmless(mantissa: Mantissa, all: string, kept: string, dropped: bool, exponent: int, power: int, d: Double)
    requires Scanned(mantissa, all, kept, dropped, exponent) && AllDigits(mantissa.digits) && Clamped(power) != power
    requires |all| <= 0x2000_0000 && mantissa.fraction <= 0x2000_0000
    requires AllDigits(Final(kept, dropped)) && 0 <= DecimalValue(Final(kept, dropped)) && 0 <= DecimalValue(mantissa.digits)
    requires RoundsTo(d, DecimalValue(Final(kept, dropped)), exponent + Clamped(power) - (if dropped then 1 else 0))
    ensures RoundsTo(d, DecimalValue(mantissa.digits), power - mantissa.fraction)
  {
    hide Pow, DecimalValue, RoundsTo, AllDigits;
    var final := Final(kept, dropped);
    var x := exponent + Clamped(power) - (if dropped then 1 else 0);
    FinalDigits(all, kept, dropped);
    KeptLength(all, kept, dropped);
    DecimalBound(final);
    DecimalBound(all);
    if all == [] {
      NoDigits();
      ZeroRounds(x);
      ZeroRounds(power - mantissa.fraction);
      RoundingIsUnique(d, 0, 0, x);
    } else if power > 0 {
      LeadingNonZero(final);
      LeadingNonZero(all);
      HugeRounds(DecimalValue(final), |final|, x);
      HugeRounds(DecimalValue(all), |all|, power - mantissa.fraction);
      RoundingIsUnique(d, INFINITY, DecimalValue(final), x);
    } else {
      TinyRounds(DecimalValue(final), |final|, x);
      TinyRounds(DecimalValue(all), |all|, power - mantissa.fraction);
      RoundingIsUnique(d, 0, DecimalValue(final), x);
    }
  }

  /** What Strtod makes of the buffer is the number as it was written, rounded. */
  lemma ScannedRounds(mantissa: Mantissa, all: string, kept: string, dropped: bool, exponent: int, power: int, d: Double)
    requires Scanned(mantissa, all, kept, dropped, exponent) && AllDigits(mantissa.digits)
    requires |all| <= 0x2000_0000 && mantissa.fraction <= 0x2000_0000
    requires AllDigits(Final(kept, dropped)) && 0 <= DecimalValue(Final(kept, dropped)) && 0 <= DecimalValue(mantissa.digits)
    requires RoundsTo(d, DecimalValue(Final(kept, dropped)), exponent + Clamped(power) - (if dropped then 1 else 0))
    ensures RoundsTo(d, DecimalValue(mantissa.digits), power - mantissa.fraction)
  {
    hide Pow, DecimalValue, RoundsTo, AllDigits, SameSides;
    if Clamped(power) != power {
      ClampIsHarmless(mantissa, all, kept, dropped, exponent, power, d);
    } else {
      KeptRounds(mantissa, all, kept, dropped, exponent, power);
      SameRounding(DecimalValue(mantissa.digits), power - mantissa.fraction, DecimalValue(Final(kept, dropped)),
                   exponent + power - (if dropped then 1 else 0), d);
    }
  }

  datatype Reading = EmptyString | JunkString | Value(negative: bool, d: Double)

  /** The reading of what is behind the sign. */
  method ReadUnsigned(text: string, from: nat, flags: Flags, powers: int -> CachedPower) returns (ok: bool, d: Double)
    requires from <= |text| <= 0x2000_0000 && Table(powers)
    ensures ok <==> Magnitude(text[from..], flags).Number?
    ensures ok ==> var n := Magnitude(text[from..], flags); RoundsTo(d, n.m, n.p)
  {
    hide DecimalValue, Scanned, DigitsOf, MantissaOf, PowerOf, RoundsTo, Table, TrailingOk;
    ghost var s := text[from..];
    var buffer := new char[BUFFER_SIZE](_ => '0');
    var current, pos, dropped, exponent;
    ghost var all;
    ok, current, pos, dropped, exponent, all := ScanMantissa(text, from, buffer);
    if !ok {
      return false, 0;
    }
    ghost var mantissa := MantissaOf(s);
    assert s[mantissa.end..] == text[current..];
    var good, end, power := ScanPower(text, current, flags);
    if !good {
      return false, 0;
    }
    assert s[mantissa.end + PowerOf(s[mantissa.end..], flags).end..] == text[end..];
    ok := CheckTrailing(text, end, flags);
    if !ok {
      return false, 0;
    }
    d := Convert(buffer, pos, dropped, exponent, power, powers, mantissa, all, PowerOf(s[mantissa.end..], flags).value);
  }

  /** The sticky one, and Strtod. */
  method Convert(buffer: array<char>, pos: nat, dropped: bool, exponent: int, power: int, powers: int -> CachedPower,
                 ghost mantissa: Mantissa, ghost all: string, ghost written: int) returns (d: Double)
    requires buffer.Length == BUFFER_SIZE && pos <= MAX_SIGNIFICANT_DIGITS && Table(powers)
    requires Scanned(mantissa, all, buffer[..pos], dropped, exponent) && AllDigits(mantissa.digits) && power == Clamped(written)
    requires |all| <= 0x2000_0000 && mantissa.fraction <= 0x2000_0000
    modifies buffer
    ensures DecimalValue(mantissa.digits) >= 0 && RoundsTo(d, DecimalValue(mantissa.digits), written - mantissa.fraction)
  {
    hide DecimalValue, RoundsTo, Table, SameSides;
    var length, x := pos, exponent + power;
    ghost var kept := buffer[..pos];
    KeptRounds(mantissa, all, kept, dropped, exponent, 0);
    if dropped {
      buffer[length] := '1';
      length := length + 1;
      x := x - 1;
    }
    assert buffer[..length] == Final(kept, dropped);
    d := Strtod(buffer[..length], x, powers);
    ScannedRounds(mantissa, all, kept, dropped, exponent, written, d);
  }

  /** StringToIeee, for decimal numbers: whatever the length of the text, the double nearest to the number it writes, ties
      to even; what is no number is junk. */
  method StringToIeee(text: string, flags: Flags, powers: int -> CachedPower) returns (r: Reading)
    requires |text| <= 0x2000_0000 && Table(powers)
    ensures text == [] || (flags.allowTrailingSpaces && forall i :: 0 <= i < |text| ==> text[i] == ' ') <==> r == EmptyString
    ensures r == EmptyString || (r == JunkString <==> Magnitude(text[SignLength(text)..], flags) == NotANumber)
    ensures r.Value? ==>
      && r.negative == (text[0] == '-')
      && var n := Magnitude(text[SignLength(text)..], flags); RoundsTo(r.d, n.m, n.p)
  {
    hide Magnitude, RoundsTo, Table;
    if text == [] {
      return EmptyString;
    }
    var current := 0;
    if flags.allowTrailingSpaces {
      var spaces := SpacesOnly(text, 0);
      if spaces {
        return EmptyString;
      }
      if text[0] == ' ' {
        SpaceIsNoNumber(text, flags);
        return JunkString;
      }
    }
    var sign := false;
    assert text[0..] == text;
    if text[0] == '+' || text[0] == '-' {
      sign := text[0] == '-';
      current := 1;
      if current == |text| || text[current] == ' ' {
        SpaceIsNoNumber(text[1..], flags);
        return JunkString;
      }
    }
    var ok, d := ReadUnsigned(text, current, flags, powers);
    if !ok {
      return JunkString;
    }
    r := Value(sign, d);
  }

  lemma SpaceIsNoNumber(s: string, flags: Flags)
    requires s == [] || s[0] == ' '
    ensures Magnitude(s, flags) == NotANumber
  {
  }
}
