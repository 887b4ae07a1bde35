/** folly's conversion from digit strings to integers of every width (Conv.cpp). */
module Convs {
  import opened Arithmetic
  import opened Decimals

  datatype ConversionCode =
    | EMPTY_INPUT_STRING | NO_DIGITS | NON_DIGIT_CHAR | INVALID_LEADING_CHAR | POSITIVE_OVERFLOW | NEGATIVE_OVERFLOW

  datatype Expected = Value(value: int) | Unexpected(code: ConversionCode)

  /** What the lookup tables hold for a character that is no digit. */
  const OOR: nat := 10000

  datatype Width = W8 | W16 | W32 | W64 | W128
  {
    function Bits(): nat {
      match this
      case W8 => 8
      case W16 => 16
      case W32 => 32
      case W64 => 64
      case W128 => 128
    }

    /** std::numeric_limits<UT>::digits10. */
    function Digits10(): nat {
      match this
      case W8 => 2
      case W16 => 4
      case W32 => 9
      case W64 => 19
      case W128 => 38
    }

    function MaxString(): string {
      match this
      case W8 => "255"
      case W16 => "65535"
      case W32 => "4294967295"
      case W64 => "18446744073709551615"
      case W128 => "340282366920938463463374607431768211455"
    }

    function Max(): nat {
      match this
      case W8 => 0xFF
      case W16 => 0xFFFF
      case W32 => 0xFFFF_FFFF
      case W64 => 0xFFFF_FFFF_FFFF_FFFF
      case W128 => 0xFFFF_FFFF_FFFF_FFFF_FFFF_FFFF_FFFF_FFFF
    }

    /** The values of the signed or unsigned type. */
    predicate Fits(signed: bool, v: int) {
      if signed then -(Max() + 1) <= 2 * v < Max() + 1 else 0 <= v <= Max()
    }
  }

  // ----- The largest value and its digits -----

  lemma {:induction false} ValueOfParts(s: string, t: string, x: nat, y: nat)
    requires DecimalValue(s) == x && DecimalValue(t) == y
    ensures DecimalValue(s + t) == x * Pow(10, |t|) + y
  {
    DecimalConcat(s, t);
  }

  lemma ShortStrings()
    ensures DecimalValue("255") == 255 && DecimalValue("65535") == 65535
    ensures DecimalValue("42949") == 42949 && DecimalValue("67295") == 67295
  {
    ThreeDigits("255");
    FiveDigits("65535");
    FiveDigits("42949");
    FiveDigits("67295");
  }

  lemma ThreeDigits(s: string)
    requires |s| == 3
    ensures DecimalValue(s) == 100 * Digit(s[0]) + 10 * Digit(s[1]) + Digit(s[2])
  {
    hide DecimalValue;
    NoDigits();
    DecimalAppend([], s[0]);
    DecimalAppend([] + [s[0]], s[1]);
    DecimalAppend([] + [s[0]] + [s[1]], s[2]);
    assert s == [] + [s[0]] + [s[1]] + [s[2]];
  }

  lemma FourDigits(s: string)
    requires |s| == 4
    ensures DecimalValue(s) == 1000 * Digit(s[0]) + 100 * Digit(s[1]) + 10 * Digit(s[2]) + Digit(s[3])
  {
    hide DecimalValue;
    ThreeDigits(s[..3]);
    assert s == s[..3] + [s[3]];
    DecimalAppend(s[..3], s[3]);
  }

  lemma FiveDigits(s: string)
    requires |s| == 5
    ensures DecimalValue(s)
         == 10000 * Digit(s[0]) + 1000 * Digit(s[1]) + 100 * Digit(s[2]) + 10 * Digit(s[3]) + Digit(s[4])
  {
    hide DecimalValue;
    FourDigits(s[..4]);
    assert s == s[..4] + [s[4]];
    DecimalAppend(s[..4], s[4]);
  }

  lemma TenDigits(s: string, a: string, b: string)
    requires |a| == 5 && |b| == 5 && s == a + b
    ensures DecimalValue(s) == 100000 * DecimalValue(a) + DecimalValue(b)
  {
    hide DecimalValue, Pow;
    DecimalConcat(a, b);
    FivePlaces();
  }

  lemma FivePlaces()
    ensures Pow(10, 5) == 100000
  {
  }

  lemma Places()
    ensures Pow(10, 2) == 100 && Pow(10, 4) == 10000 && Pow(10, 5) == 100000
    ensures Pow(10, 9) == 1_000_000_000 && Pow(10, 10) == 10_000_000_000 && Pow(10, 19) == 10_000_000_000_000_000_000
    ensures Pow(10, 38) == 100_000_000_000_000_000_000_000_000_000_000_000_000
  {
    hide Pow;
    FivePlaces();
    TenTo4();
    TenMore(1);
    TwoPlaces();
    PowAdd(10, 5, 4);
    PowAdd(10, 5, 5);
    PowAdd(10, 10, 9);
    PowAdd(10, 19, 19);
  }

  lemma TwoPlaces()
    ensures Pow(10, 2) == 100
  {
  }

  lemma W64String()
    ensures DecimalValue("18446744073709551615") == 0xFFFF_FFFF_FFFF_FFFF
  {
    hide DecimalValue, Pow;
    FiveDigits("18446");
    FiveDigits("74407");
    FiveDigits("37095");
    FiveDigits("51615");
    TenDigits("1844674407", "18446", "74407");
    TenDigits("3709551615", "37095", "51615");
    Places();
    assert "18446744073709551615" == "1844674407" + "3709551615";
    ValueOfParts("1844674407", "3709551615", 1844674407, 3709551615);
  }

  lemma W128String()
    ensures DecimalValue("340282366920938463463374607431768211455") == 0xFFFF_FFFF_FFFF_FFFF_FFFF_FFFF_FFFF_FFFF
  {
    hide DecimalValue, Pow;
    FourDigits("3402");
    FiveDigits("82366");
    FiveDigits("92093");
    FiveDigits("84634");
    FiveDigits("63374");
    FiveDigits("60743");
    FiveDigits("17682");
    FiveDigits("11455");
    Places();
    assert "340282366" == "3402" + "82366";
    ValueOfParts("3402", "82366", 3402, 82366);
    TenDigits("9209384634", "92093", "84634");
    TenDigits("6337460743", "63374", "60743");
    TenDigits("1768211455", "17682", "11455");
    assert "3402823669209384634" == "340282366" + "9209384634";
    ValueOfParts("340282366", "9209384634", 340282366, 9209384634);
    assert "34028236692093846346337460743" == "3402823669209384634" + "6337460743";
    ValueOfParts("3402823669209384634", "6337460743", 3402823669209384634, 6337460743);
    assert "340282366920938463463374607431768211455" == "34028236692093846346337460743" + "1768211455";
    ValueOfParts("34028236692093846346337460743", "1768211455", 34028236692093846346337460743, 1768211455);
  }

  lemma W32String()
    ensures DecimalValue("4294967295") == 0xFFFF_FFFF
  {
    hide DecimalValue;
    ShortStrings();
    TenDigits("4294967295", "42949", "67295");
  }

  lemma StringIsMax(w: Width)
    ensures DecimalValue(w.MaxString()) == w.Max()
  {
    hide DecimalValue;
    match w {
      case W8 => ShortStrings();
      case W16 => ShortStrings();
      case W32 => W32String();
      case W64 => W64String();
      case W128 => W128String();
    }
  }

  lemma W128HasDigits()
    ensures AllDigits("340282366920938463463374607431768211455")
  {
    var a, b := "3402823669209384634", "63374607431768211455";
    assert AllDigits(a) && AllDigits(b);
    assert "340282366920938463463374607431768211455" == a + b;
  }

  lemma StringHasDigits(w: Width)
    ensures AllDigits(w.MaxString()) && |w.MaxString()| == w.Digits10() + 1
  {
    match w {
      case W8 =>
      case W16 =>
      case W32 =>
      case W64 =>
      case W128 => W128HasDigits();
    }
  }

  lemma PowerIsMax(w: Width)
    ensures w.Max() + 1 == Pow(2, w.Bits()) && Pow(10, w.Digits10()) <= w.Max()
  {
    hide Pow;
    Places();
    TwoTo8();
    TwoTo64();
    PowAdd(2, 64, 64);
  }

  /** The string holds the largest value of the type, which has one digit more than always fit. */
  lemma MaxIsMax(w: Width)
    ensures w.Max() + 1 == Pow(2, w.Bits()) && DecimalValue(w.MaxString()) == w.Max()
    ensures AllDigits(w.MaxString()) && |w.MaxString()| == w.Digits10() + 1
    ensures Pow(10, w.Digits10()) <= w.Max() < Pow(10, w.Digits10() + 1)
  {
    hide DecimalValue, Pow, Width.Max, Width.MaxString, Width.Digits10, Width.Bits;
    PowerIsMax(w);
    StringIsMax(w);
    StringHasDigits(w);
    DecimalBound(w.MaxString());
  }

  // ----- Comparing digit strings -----

  /** strncmp(s, t, |s|) > 0, for strings of the same length. */
  predicate Exceeds(s: string, t: string)
    requires |s| == |t|
  {
    s != [] && (s[0] > t[0] || (s[0] == t[0] && Exceeds(s[1..], t[1..])))
  }

  /** Among digit strings of the same length the order of the characters is that of the numbers. */
  lemma {:induction false} ExceedsIsGreater(s: string, t: string)
    requires |s| == |t| && AllDigits(s) && AllDigits(t)
    ensures Exceeds(s, t) <==> DecimalValue(s) > DecimalValue(t)
  {
    hide Pow, DecimalValue;
    if s == [] {
      assert t == [];
    } else {
      ExceedsIsGreater(s[1..], t[1..]);
      LeadingDigit(s);
      LeadingDigit(t);
      DecimalBound(s[1..]);
      DecimalBound(t[1..]);
      TopDecides(Digit(s[0]), Digit(t[0]), Pow(10, |s| - 1), DecimalValue(s[1..]), DecimalValue(t[1..]));
    }
  }

  lemma TopDecides(a: int, b: int, p: nat, x: nat, y: nat)
    requires x < p && y < p
    ensures a > b ==> a * p + x > b * p + y
    ensures a < b ==> a * p + x < b * p + y
  {
    if a > b {
      MulMonotone(b + 1, a, p);
      Distribute(b, 1, p);
    } else if a < b {
      MulMonotone(a + 1, b, p);
      Distribute(a, 1, p);
    }
  }

  /** A digit prefix of a string that does not exceed t, padded with zeros, is at most t. */
  lemma {:induction false} PrefixBelow(s: string, t: string, k: nat)
    requires |s| == |t| && k <= |s| && AllDigits(s[..k]) && AllDigits(t) && !Exceeds(s, t)
    ensures DecimalValue(s[..k]) * Pow(10, |s| - k) <= DecimalValue(t)
    decreases k
  {
    hide Pow, DecimalValue;
    DecimalBound(t);
    if k == 0 {
      NoDigits();
      assert s[..0] == [];
    } else {
      LeadingDigit(s[..k]);
      LeadingDigit(t);
      DecimalBound(t[1..]);
      DecimalBound(s[..k][1..]);
      PowAdd(10, k - 1, |s| - k);
      assert s[..k][1..] == s[1..][..k - 1];
      if s[0] == t[0] {
        PrefixBelow(s[1..], t[1..], k - 1);
        Shifted(Digit(s[0]), Pow(10, k - 1), Pow(10, |s| - k), DecimalValue(s[..k][1..]));
      } else {
        Shifted(Digit(s[0]), Pow(10, k - 1), Pow(10, |s| - k), DecimalValue(s[..k][1..]));
        MulStrict(DecimalValue(s[..k][1..]), Pow(10, k - 1), Pow(10, |s| - k));
        TopDecides(Digit(s[0]), Digit(t[0]), Pow(10, |s| - 1),
                   DecimalValue(s[..k][1..]) * Pow(10, |s| - k), DecimalValue(t[1..]));
      }
    }
  }

  lemma Shifted(d: int, p: nat, q: nat, x: nat)
    ensures (d * p + x) * q == d * (p * q) + x * q
  {
    Distribute(d * p, x, q);
    Associate(d, p, q);
  }

  // ----- The sign -----

  /** What the sign handler has read: an error, or a sign and where the digits start. */
  datatype Leading = Invalid | Leading(negative: bool, start: nat)

  /** SignedValueHandler::init; where the text is empty it reads the character behind it. */
  function Init(signed: bool, text: string, next: char): Leading {
    var c := if text == [] then next else text[0];
    if !signed || IsDigit(c) then Leading(false, 0)
    else if c == '-' then Leading(true, 1)
    else if c == '+' then Leading(false, 1)
    else Invalid
  }

  function Overflow(negative: bool): ConversionCode {
    if negative then NEGATIVE_OVERFLOW else POSITIVE_OVERFLOW
  }

  /** The low bits of x as a signed number. */
  function ToSigned(w: Width, x: int): int {
    var low := x % (w.Max() + 1);
    if 2 * low < w.Max() + 1 then low else low - (w.Max() + 1)
  }

  /** SignedValueHandler::finalize, on an unsigned value. */
  function Finalize(w: Width, signed: bool, negative: bool, value: nat): Expected {
    if !signed then Value(value)
    else if negative then
      var rv := ToSigned(w, 0 - value);
      if rv > 0 then Unexpected(NEGATIVE_OVERFLOW) else Value(rv)
    else
      var rv := ToSigned(w, value);
      if rv < 0 then Unexpected(POSITIVE_OVERFLOW) else Value(rv)
  }

  function Signed(negative: bool, value: int): int {
    if negative then -value else value
  }

  /** The sign of the truncated value tells exactly whether the value fits. */
  lemma FinalizeIsExact(w: Width, signed: bool, negative: bool, value: nat)
    requires value <= w.Max() && (negative ==> signed)
    ensures Finalize(w, signed, negative, value)
         == if w.Fits(signed, Signed(negative, value)) then Value(Signed(negative, value)) else Unexpected(Overflow(negative))
  {
    hide Width.Max;
    var m := w.Max() + 1;
    Residues(m, value);
  }

  lemma Residues(m: nat, value: nat)
    requires value < m
    ensures value % m == value && (0 - value) % m == if value == 0 then 0 else m - value
  {
  }

  // ----- Digits -----

  /** The lookup tables: a digit's value at a decimal place, or out of range. */
  function Shift(multiplier: nat, c: char): nat {
    if IsDigit(c) then multiplier * Digit(c) else OOR
  }

  /** What a conversion of sign and digits promises. */
  ghost predicate Converts(w: Width, signed: bool, negative: bool, digits: string, r: Expected) {
    if digits == [] then r == Unexpected(NO_DIGITS)
    else if AllDigits(digits) then
      var v := Signed(negative, DecimalValue(digits));
      r == if w.Fits(signed, v) then Value(v) else Unexpected(Overflow(negative))
    else r == Unexpected(if LooksTooLong(w, digits) then Overflow(negative) else NON_DIGIT_CHAR)
  }

  /** How many zeros a text begins with. */
  function Zeros(s: string): (b: nat)
    ensures b <= |s| && (forall k :: 0 <= k < b ==> s[k] == '0') && (b < |s| ==> s[b] != '0')
  {
    if s == [] || s[0] != '0' then 0 else 1 + Zeros(s[1..])
  }

  /** The check for overflow, which comes before any character but the zeros is looked at: behind them the text is too
      long, or as long as the largest value and greater as text. */
  predicate LooksTooLong(w: Width, s: string) {
    var rest := s[Zeros(s)..];
    |rest| > |w.MaxString()| || (|rest| == |w.MaxString()| && Exceeds(rest, w.MaxString()))
  }

  /** The digits that are read after the check for overflow: any digit prefix fits the unsigned type. */
  ghost predicate Bounded(w: Width, s: string) {
    && (|s| <= w.Digits10() + 1)
    && forall k: nat | k <= |s| && AllDigits(s[..k]) :: DecimalValue(s[..k]) * Pow(10, |s| - k) <= w.Max()
  }

  lemma ShortIsBounded(w: Width, s: string)
    requires |s| <= w.Digits10()
    ensures Bounded(w, s)
  {
    hide Pow, DecimalValue;
    MaxIsMax(w);
    forall k: nat | k <= |s| && AllDigits(s[..k]) ensures DecimalValue(s[..k]) * Pow(10, |s| - k) <= w.Max() {
      DecimalBound(s[..k]);
      PowAdd(10, k, |s| - k);
      MulMonotone(DecimalValue(s[..k]), Pow(10, k), Pow(10, |s| - k));
      PowMonotone(10, |s|, w.Digits10());
    }
  }

  lemma CheckedIsBounded(w: Width, s: string)
    requires |s| == w.Digits10() + 1 && !Exceeds(s, w.MaxString())
    ensures Bounded(w, s)
  {
    hide Pow, DecimalValue, Exceeds;
    MaxIsMax(w);
    forall k: nat | k <= |s| && AllDigits(s[..k]) ensures DecimalValue(s[..k]) * Pow(10, |s| - k) <= w.Max() {
      PrefixBelow(s, w.MaxString(), k);
    }
  }

  /** A digit string without leading zeros that is too long, or exceeds the longest, is too large. */
  lemma LongIsTooLarge(w: Width, s: string)
    requires AllDigits(s) && |s| > 0 && s[0] != '0' && |s| > w.Digits10()
    requires |s| == w.Digits10() + 1 ==> Exceeds(s, w.MaxString())
    ensures DecimalValue(s) > w.Max()
  {
    hide Pow, DecimalValue, Exceeds;
    MaxIsMax(w);
    if |s| == w.Digits10() + 1 {
      ExceedsIsGreater(s, w.MaxString());
    } else {
      LeadingNonZero(s);
      PowMonotone(10, w.Digits10() + 1, |s| - 1);
    }
  }

  /** Up to three more digits, or four in the loop: their sum of table entries tells whether all are digits. */
  lemma TableSum3(s: string)
    requires |s| == 3
    ensures var sum := Shift(100, s[0]) + Shift(10, s[1]) + Shift(1, s[2]);
            (sum < OOR <==> AllDigits(s)) && (AllDigits(s) ==> sum == DecimalValue(s))
  {
    hide DecimalValue;
    ThreeDigits(s);
  }

  lemma TableSum4(s: string)
    requires |s| == 4
    ensures var sum := Shift(1000, s[0]) + Shift(100, s[1]) + Shift(10, s[2]) + Shift(1, s[3]);
            (sum < OOR <==> AllDigits(s)) && (AllDigits(s) ==> sum == DecimalValue(s))
  {
    hide DecimalValue;
    FourDigits(s);
  }

  lemma TableSum2(s: string)
    requires |s| == 2
    ensures var sum := Shift(10, s[0]) + Shift(1, s[1]);
            (sum < OOR <==> AllDigits(s)) && (AllDigits(s) ==> sum == DecimalValue(s))
  {
    hide DecimalValue;
    NoDigits();
    DecimalAppend([], s[0]);
    DecimalAppend([] + [s[0]], s[1]);
    assert s == [] + [s[0]] + [s[1]];
  }

  lemma TableSum1(s: string)
    requires |s| == 1
    ensures (Shift(1, s[0]) < OOR <==> AllDigits(s)) && (AllDigits(s) ==> Shift(1, s[0]) == DecimalValue(s))
  {
    hide DecimalValue;
    NoDigits();
    DecimalAppend([], s[0]);
    assert s == [] + [s[0]];
  }

  /** The next k characters join the digits read so far, and nothing wraps. */
  lemma Joined(w: Width, s: string, b: nat, k: nat, scale: nat)
    requires Bounded(w, s) && b + k <= |s| && AllDigits(s[..b]) && scale == Pow(10, k)
    ensures DecimalValue(s[..b]) * scale <= w.Max()
    ensures AllDigits(s[b..b + k]) ==>
      && AllDigits(s[..b + k]) && DecimalValue(s[..b + k]) == DecimalValue(s[..b]) * scale + DecimalValue(s[b..b + k])
      && DecimalValue(s[..b + k]) <= w.Max()
    ensures !AllDigits(s[b..b + k]) ==> !AllDigits(s)
  {
    hide DecimalValue, Pow;
    DecimalBound(s[..b]);
    PaddedBound(w, s, b, k);
    if AllDigits(s[b..b + k]) {
      assert s[..b + k] == s[..b] + s[b..b + k];
      DecimalConcat(s[..b], s[b..b + k]);
      DecimalBound(s[..b + k]);
      PaddedBound(w, s, b + k, 0);
      One();
    }
  }

  lemma PaddedBound(w: Width, s: string, b: nat, k: nat)
    requires Bounded(w, s) && b + k <= |s| && AllDigits(s[..b])
    ensures DecimalValue(s[..b]) * Pow(10, k) <= w.Max()
  {
    hide DecimalValue, Pow;
    DecimalBound(s[..b]);
    PowMonotone(10, k, |s| - b);
    MulMonotone(Pow(10, k), Pow(10, |s| - b), DecimalValue(s[..b]));
  }

  /** The table loop and what is left after it: four digits at a time, the same as one by one. */
  method Accumulate(w: Width, s: string) returns (ok: bool, result: nat)
    requires Bounded(w, s)
    ensures ok <==> AllDigits(s)
    ensures ok ==> result == DecimalValue(s) <= w.Max()
  {
    hide DecimalValue, Pow, Bounded, AllDigits, Width.Max;
    NoDigits();
    assert s[..0] == [];
    result := 0;
    var b := 0;
    assert AllDigits(s[..b]) by { Nothing(s); }
    while |s| - b >= 4
      invariant b <= |s| && AllDigits(s[..b]) && result == DecimalValue(s[..b])
    {
      Joined(w, s, b, 4, 10000) by { Places(); }
      result := result * 10000;
      assert result <= w.Max();
      TableSum4(s[b..b + 4]);
      var sum := Shift(1000, s[b]) + Shift(100, s[b + 1]) + Shift(10, s[b + 2]) + Shift(1, s[b + 3]);
      if sum >= OOR {
        return false, 0;
      }
      result := result + sum;
      assert result <= w.Max();
      b := b + 4;
    }
    if |s| - b == 3 {
      Joined(w, s, b, 3, 1000) by { ThreePlaces(); }
      TableSum3(s[b..b + 3]);
      var sum := Shift(100, s[b]) + Shift(10, s[b + 1]) + Shift(1, s[b + 2]);
      if sum >= OOR {
        return false, 0;
      }
      result := 1000 * result + sum;
      assert s[..b + 3] == s;
    } else if |s| - b == 2 {
      Joined(w, s, b, 2, 100) by { ThreePlaces(); }
      TableSum2(s[b..b + 2]);
      var sum := Shift(10, s[b]) + Shift(1, s[b + 1]);
      if sum >= OOR {
        return false, 0;
      }
      result := 100 * result + sum;
      assert s[..b + 2] == s;
    } else if |s| - b == 1 {
      Joined(w, s, b, 1, 10) by { ThreePlaces(); }
      TableSum1(s[b..b + 1]);
      var sum := Shift(1, s[b]);
      if sum >= OOR {
        return false, 0;
      }
      result := 10 * result + sum;
      assert s[..b + 1] == s;
    } else {
      assert s[..b] == s;
    }
    MaxHolds(w, s);
    ok := true;
  }

  lemma Nothing(s: string)
    ensures AllDigits(s[..0])
  {
  }

  lemma ThreePlaces()
    ensures Pow(10, 1) == 10 && Pow(10, 2) == 100 && Pow(10, 3) == 1000
  {
  }

  lemma MaxHolds(w: Width, s: string)
    requires Bounded(w, s) && AllDigits(s)
    ensures 0 <= DecimalValue(s) <= w.Max()
  {
    hide DecimalValue, Pow;
    assert s[..|s|] == s;
    DecimalBound(s);
    PaddedBound(w, s, |s|, 0);
    One();
  }

  // ----- digits_to -----

  /** Leading zeros, where the string is long enough to overflow; none are left, or nothing else was there. */
  method SkipZeros(s: string) returns (b: nat)
    ensures b == Zeros(s) && b <= |s| && (forall k :: 0 <= k < b ==> s[k] == '0') && (b < |s| ==> s[b] != '0')
  {
    b := 0;
    while b < |s| && s[b] == '0'
      invariant b <= |s| && forall k :: 0 <= k < b ==> s[k] == '0'
    {
      b := b + 1;
    }
  }

  /** The digits behind a sign, checked for overflow before any is read. */
  method ConvertDigits(w: Width, signed: bool, negative: bool, digits: string) returns (r: Expected)
    requires negative ==> signed
    ensures Converts(w, signed, negative, digits, r)
  {
    hide DecimalValue, Pow, Bounded, AllDigits, Exceeds, Width.Max, Width.MaxString, Width.Digits10, Width.Fits, Finalize, Zeros;
    assert |w.MaxString()| == w.Digits10() + 1 by { MaxIsMax(w); }
    assert Zeros(digits) <= |digits|;
    var s := digits;
    assert s == digits[0..];
    if |digits| > w.Digits10() {
      var b := SkipZeros(digits);
      LeadingZeros(digits, b);
      s := digits[b..];
      if b == |digits| {
        NoDigits();
        ZeroFits(w, signed, negative);
        assert AllDigits(digits) by { Empty(); }
        return Value(0);
      }
      if |s| > w.Digits10() && (|s| != w.Digits10() + 1 || Exceeds(s, w.MaxString())) {
        if AllDigits(digits) {
          LongIsTooLarge(w, s);
          TooLarge(w, signed, negative, DecimalValue(s));
        }
        return Unexpected(Overflow(negative));
      }
      if |s| == w.Digits10() + 1 {
        CheckedIsBounded(w, s);
      }
    }
    if |s| <= w.Digits10() {
      ShortIsBounded(w, s);
    }
    var ok, result := Accumulate(w, s);
    if !ok {
      assert AllDigits("") by { Empty(); }
      return Unexpected(NON_DIGIT_CHAR);
    }
    if |s| == 0 {
      return Unexpected(NO_DIGITS);
    }
    FinalizeIsExact(w, signed, negative, result);
    r := Finalize(w, signed, negative, result);
  }

  lemma Empty()
    ensures AllDigits("")
  {
  }

  lemma ZeroFits(w: Width, signed: bool, negative: bool)
    ensures w.Fits(signed, 0) && Signed(negative, 0) == 0
  {
  }

  lemma TooLarge(w: Width, signed: bool, negative: bool, value: int)
    requires value > w.Max() && (negative ==> signed)
    ensures !w.Fits(signed, Signed(negative, value))
  {
  }

  /** The exact value where it fits the type, and where it does not the code for its side. */
  predicate Exactly(w: Width, signed: bool, v: int, r: Expected) {
    r == if w.Fits(signed, v) then Value(v) else Unexpected(if v < 0 then NEGATIVE_OVERFLOW else POSITIVE_OVERFLOW)
  }

  /** A signed type holds the numbers of its bits in two's complement, an unsigned one those from zero on. */
  lemma FitsIs(w: Width, v: int)
    ensures w.Fits(true, v) <==> -(Pow(2, w.Bits() - 1) as int) <= v < Pow(2, w.Bits() - 1)
    ensures w.Fits(false, v) <==> 0 <= v < Pow(2, w.Bits())
  {
    hide Pow, Width.Max, Width.Bits;
    MaxIsMax(w);
    assert w.Bits() > 0 by { HasBits(w); }
    HalfOf(w.Bits());
  }

  lemma HasBits(w: Width)
    ensures w.Bits() > 0
  {
  }

  /** What digits_to makes of a sign and digits: a minus negates, a plus does nothing, and an unsigned type takes neither. */
  ghost predicate Reads(w: Width, signed: bool, text: string, r: Expected)
    requires text != []
  {
    if AllDigits(text) then Exactly(w, signed, DecimalValue(text), r)
    else if IsDigit(text[0]) || !signed then
      r == Unexpected(if LooksTooLong(w, text) then POSITIVE_OVERFLOW else NON_DIGIT_CHAR)
    else if text[0] != '-' && text[0] != '+' then r == Unexpected(INVALID_LEADING_CHAR)
    else if |text| == 1 then r == Unexpected(NO_DIGITS)
    else if AllDigits(text[1..]) then
      Exactly(w, true, if text[0] == '-' then -DecimalValue(text[1..]) else DecimalValue(text[1..]), r)
    else if !LooksTooLong(w, text[1..]) then r == Unexpected(NON_DIGIT_CHAR)
    else r == Unexpected(if text[0] == '-' then NEGATIVE_OVERFLOW else POSITIVE_OVERFLOW)
  }

  /** What it makes of an empty text, for a signed type with the character behind it. */
  predicate ReadsNothing(signed: bool, next: char, r: Expected) {
    if !signed || IsDigit(next) then r == Unexpected(NO_DIGITS)
    else if next == '-' then r == Unexpected(NEGATIVE_OVERFLOW)
    else if next == '+' then r == Unexpected(POSITIVE_OVERFLOW)
    else r == Unexpected(INVALID_LEADING_CHAR)
  }

  /** digits_to: an optional sign for a signed type, then digits of any number, leading zeros included: the exact
      value where it fits the type, the matching code where it does not. An empty text is an error whatever stands
      behind it, though a sign there makes its length wrap. */
  method DigitsTo(w: Width, signed: bool, text: string, next: char) returns (r: Expected)
    ensures if text == [] then ReadsNothing(signed, next, r) else Reads(w, signed, text, r)
  {
    hide DecimalValue, Width.Fits, LooksTooLong, AllDigits;
    var leading := Init(signed, text, next);
    if leading.Invalid? {
      NotAllDigits(text);
      return Unexpected(INVALID_LEADING_CHAR);
    }
    if leading.start > |text| {
      return Unexpected(Overflow(leading.negative));
    }
    r := ConvertDigits(w, signed, leading.negative, text[leading.start..]);
    assert text[0..] == text;
    if text != [] {
      NotAllDigits(text);
      ZeroFits(w, signed, leading.negative);
    }
  }

  lemma NotAllDigits(text: string)
    ensures text != [] && !IsDigit(text[0]) ==> !AllDigits(text)
  {
  }

  // ----- str_to_integral -----

  predicate IsSpace(c: char) {
    '\t' <= c <= '\r' || c == ' '
  }

  /** The six characters of white space: tab, line feed, vertical tab, form feed, carriage return and space. */
  lemma SpacesAre(c: char)
    ensures IsSpace(c) <==> c in ['\t', '\n', 11 as char, 12 as char, '\r', ' ']
  {
  }

  function SkipSpace(s: string): (r: nat)
    ensures r <= |s| && (r < |s| ==> !IsSpace(s[r])) && forall k :: 0 <= k < r ==> IsSpace(s[k])
  {
    if s == [] || !IsSpace(s[0]) then 0 else 1 + SkipSpace(s[1..])
  }

  /** What the conversion of the head of a text promises, and how much of the text it takes. */
  ghost predicate Parsed(w: Width, signed: bool, text: string, r: Expected, taken: nat) {
    var start := SkipSpace(text);
    if start == |text| then r == Unexpected(EMPTY_INPUT_STRING)
    else
      var c := text[start];
      var first := if signed && (c == '-' || c == '+') then start + 1 else start;
      var digits := DigitsOf(text[first..]);
      if signed && first == start && !IsDigit(c) then r == Unexpected(INVALID_LEADING_CHAR)
      else if first == |text| then r == Unexpected(NO_DIGITS)
      else if digits == [] then r == Unexpected(NON_DIGIT_CHAR)
      else
        && Exactly(w, signed, if signed && c == '-' then -DecimalValue(digits) else DecimalValue(digits), r)
        && (r.Value? ==> taken == first + |digits|)
  }

  /** So behind white space a minus negates the longest run of digits, a plus does nothing, any other character is an error,
      and what is taken off the text ends with the last digit. */
  lemma ParsedText(
      w: Width, text: string, spaces: string, sign: string, digits: string, rest: string, r: Expected, taken: nat)
    requires (forall k :: 0 <= k < |spaces| ==> IsSpace(spaces[k])) && sign in {"", "-", "+"}
    requires digits != [] && AllDigits(digits) && (rest == [] || !IsDigit(rest[0]))
    requires text == spaces + (sign + (digits + rest)) && Parsed(w, true, text, r, taken)
    ensures Exactly(w, true, if sign == "-" then -DecimalValue(digits) else DecimalValue(digits), r)
    ensures r.Value? ==> taken == |spaces| + |sign| + |digits|
  {
    hide DecimalValue, AllDigits, SkipSpace, DigitsOf, Exactly, Parsed, IsSpace, IsDigit;
    FirstOf(digits);
    SignFirst(sign, digits + rest);
    SpacesEnd(spaces, sign + (digits + rest));
    Behind(text, spaces, sign, digits + rest);
    DigitsThen(digits, rest);
    ParsedParts(w, text, r, taken, |spaces|, |spaces| + |sign|, digits);
  }

  lemma ParsedParts(w: Width, text: string, r: Expected, taken: nat, start: nat, first: nat, digits: string)
    requires Parsed(w, true, text, r, taken) && start == SkipSpace(text) && first < |text| && start < |text|
    requires first == if text[start] == '-' || text[start] == '+' then start + 1 else start
    requires digits == DigitsOf(text[first..]) && digits != [] && (first == start ==> IsDigit(text[start]))
    ensures Exactly(w, true, if text[start] == '-' then -DecimalValue(digits) else DecimalValue(digits), r)
    ensures r.Value? ==> taken == first + |digits|
  {
    hide DecimalValue, SkipSpace, DigitsOf, Exactly, IsDigit, IsSpace, AllDigits;
  }

  lemma Behind(text: string, a: string, b: string, c: string)
    requires c != [] && text == a + (b + c)
    ensures |a| + |b| < |text| && text[|a|] == (b + c)[0] && text[|a| + |b|..] == c
  {
    assert text[|a|..] == b + c;
    assert text[|a| + |b|..] == text[|a|..][|b|..];
  }

  lemma SignFirst(sign: string, t: string)
    requires sign in {"", "-", "+"} && t != [] && IsDigit(t[0])
    ensures var c := (sign + t)[0];
            && !IsSpace(c) && (sign == "-" <==> c == '-') && |sign| == (if c == '-' || c == '+' then 1 else 0)
            && (sign == "" ==> IsDigit(c))
  {
  }

  lemma FirstOf(s: string)
    requires s != [] && AllDigits(s)
    ensures IsDigit(s[0])
  {
  }

  lemma {:induction false} SpacesEnd(spaces: string, tail: string)
    requires forall k :: 0 <= k < |spaces| ==> IsSpace(spaces[k])
    requires tail == [] || !IsSpace(tail[0])
    ensures SkipSpace(spaces + tail) == |spaces|
  {
    if spaces == [] {
      assert spaces + tail == tail;
    } else {
      assert (spaces + tail)[1..] == spaces[1..] + tail;
      SpacesEnd(spaces[1..], tail);
    }
  }

  lemma SpaceFrom(s: string, b: nat)
    requires b < |s|
    ensures SkipSpace(s[b..]) == if IsSpace(s[b]) then 1 + SkipSpace(s[b + 1..]) else 0
  {
    assert s[b..][1..] == s[b + 1..];
  }

  method FindFirstNonDigit(s: string, from: nat) returns (m: nat)
    requires from <= |s|
    ensures from <= m <= |s| && s[from..m] == DigitsOf(s[from..])
  {
    hide DigitsOf, AllDigits;
    m := from;
    assert s[from..m] == [];
    while m < |s| && IsDigit(s[m])
      invariant from <= m <= |s| && DigitsOf(s[from..]) == s[from..m] + DigitsOf(s[m..])
    {
      DigitsFrom(s, m);
      assert s[from..m + 1] == s[from..m] + [s[m]];
      m := m + 1;
    }
    if m < |s| {
      DigitsFrom(s, m);
    } else {
      assert DigitsOf(s[m..]) == [] by { NoMoreDigits(s, m); }
    }
  }

  method SkipSpaces(text: string) returns (b: nat)
    ensures b == SkipSpace(text)
  {
    hide SkipSpace;
    b := 0;
    assert text[0..] == text;
    while b < |text| && IsSpace(text[b])
      invariant b <= |text| && SkipSpace(text) == b + SkipSpace(text[b..])
    {
      SpaceFrom(text, b);
      b := b + 1;
    }
    if b < |text| {
      SpaceFrom(text, b);
    } else {
      assert SkipSpace(text[b..]) == 0 by { NoMoreSpace(text, b); }
    }
  }

  lemma NoMoreSpace(s: string, m: nat)
    requires m == |s|
    ensures SkipSpace(s[m..]) == 0
  {
  }

  /** str_to_integral: white space, an optional sign for a signed type, and the longest run of digits, which is taken
      off the text where its value fits. */
  method StrToIntegral(w: Width, signed: bool, text: string) returns (r: Expected, taken: nat)
    ensures Parsed(w, signed, text, r, taken) && (r.Unexpected? ==> taken == 0)
  {
    hide DecimalValue, Width.Fits, Width.Max, Converts, Finalize, SkipSpace, DigitsOf, Exactly, AllDigits, IsSpace;
    taken := 0;
    var b := SkipSpaces(text);
    SpaceEnds(text);
    if b >= |text| {
      return Unexpected(EMPTY_INPUT_STRING), 0;
    }
    var leading := Init(signed, text[b..], ' ');
    if leading.Invalid? {
      return Unexpected(INVALID_LEADING_CHAR), 0;
    }
    b := b + leading.start;
    if b >= |text| {
      return Unexpected(NO_DIGITS), 0;
    }
    r, taken := ConvertRun(w, signed, leading.negative, text, b);
  }

  /** The longest run of digits, given its sign. */
  method ConvertRun(w: Width, signed: bool, negative: bool, text: string, b: nat) returns (r: Expected, taken: nat)
    requires b < |text| && (negative ==> signed)
    ensures var digits := DigitsOf(text[b..]);
            if digits == [] then r == Unexpected(NON_DIGIT_CHAR)
            else
              && Exactly(w, signed, if negative then -DecimalValue(digits) else DecimalValue(digits), r)
              && (r.Value? ==> taken == b + |digits|)
    ensures r.Unexpected? ==> taken == 0
  {
    hide DecimalValue, Width.Fits, Width.Max, Converts, Finalize, DigitsOf, Exactly, AllDigits;
    DigitsFrom(text, b);
    if !IsDigit(text[b]) {
      return Unexpected(NON_DIGIT_CHAR), 0;
    }
    var m := FindFirstNonDigit(text, b + 1);
    assert text[b..m] == [text[b]] + text[b + 1..m];
    DigitsAre(text[b..]);
    var tmp := ConvertDigits(w, false, false, text[b..m]);
    r := FromUnsigned(w, signed, negative, text[b..m], tmp);
    SignedExactly(w, signed, negative, DecimalValue(text[b..m]), r);
    taken := if r.Value? then m else 0;
  }

  lemma SignedExactly(w: Width, signed: bool, negative: bool, value: nat, r: Expected)
    requires var v := Signed(negative, value); r == if w.Fits(signed, v) then Value(v) else Unexpected(Overflow(negative))
    ensures Exactly(w, signed, if negative then -(value as int) else value, r)
  {
    ZeroFits(w, signed, negative);
  }

  lemma SpaceEnds(s: string)
    ensures SkipSpace(s) <= |s|
  {
  }

  /** The unsigned value given its sign. */
  method FromUnsigned(w: Width, signed: bool, negative: bool, digits: string, tmp: Expected) returns (r: Expected)
    requires digits != [] && AllDigits(digits) && (negative ==> signed)
    requires Converts(w, false, false, digits, tmp)
    ensures var v := Signed(negative, DecimalValue(digits));
            r == if w.Fits(signed, v) then Value(v) else Unexpected(Overflow(negative))
  {
    hide DecimalValue, Finalize;
    if tmp.Unexpected? {
      DecimalBound(digits);
      assert tmp.code == POSITIVE_OVERFLOW && !w.Fits(signed, Signed(negative, DecimalValue(digits)));
      return Unexpected(Overflow(negative));
    }
    FinalizeIsExact(w, signed, negative, tmp.value);
    r := Finalize(w, signed, negative, tmp.value);
  }
}
