/** Printing digits as text (DoubleToStringConverter in double-conversion.cc), and reading the text back. */
module Printing {
  import opened Agreements
  import opened Arithmetic
  import opened Cutting
  import opened Decimals
  import opened DiyFpStrtods
  import opened Dtoa
  import opened Scanning
  import Grisus
  import Ieee

  /** The converter's flags and its exponent character. */
  datatype Style = Style(emitPositiveExponentSign: bool, emitTrailingDecimalPoint: bool, emitTrailingZeroAfterPoint: bool,
                         exponentCharacter: char)
  {
    /** A trailing zero is only asked for together with the trailing point. */
    predicate Valid() {
      && (emitTrailingZeroAfterPoint ==> emitTrailingDecimalPoint)
      && (exponentCharacter == 'e' || exponentCharacter == 'E')
    }
  }

  class StringBuilder {
    var text: string

    constructor ()
      ensures text == ""
    {
      text := "";
    }

    method AddCharacter(c: char)
      modifies this
      ensures text == old(text) + [c]
    {
      text := text + [c];
    }

    method AddSubstring(s: string)
      modifies this
      ensures text == old(text) + s
    {
      text := text + s;
    }

    /** Nothing is added where the count is not positive. */
    method AddPadding(c: char, count: int)
      modifies this
      ensures text == old(text) + Repeat(c, count)
    {
      var i := 0;
      while i < count
        invariant 0 <= i && (i <= count || i == 0)
        invariant text == old(text) + Repeat(c, i)
      {
        AddCharacter(c);
        i := i + 1;
        assert Repeat(c, i) == Repeat(c, i - 1) + [c];
      }
      assert Repeat(c, i) == Repeat(c, count);
    }
  }

  function Repeat(c: char, count: int): (r: string)
    ensures |r| == if count > 0 then count else 0
    ensures forall i :: 0 <= i < |r| ==> r[i] == c
  {
    seq(if count > 0 then count else 0, _ => c)
  }

  // ----- The decimal form -----

  function Whole(digits: string, point: int): string {
    if point <= 0 then "0"
    else if point >= |digits| then digits + Repeat('0', point - |digits|)
    else digits[..point]
  }

  function Fraction(digits: string, point: int, after: nat): string {
    if after == 0 then ""
    else if point <= 0 then Repeat('0', -point) + digits + Repeat('0', after + point - |digits|)
    else if point >= |digits| then Repeat('0', after)
    else digits[point..] + Repeat('0', after - (|digits| - point))
  }

  function Trailer(after: nat, style: Style): string {
    if after > 0 then ""
    else (if style.emitTrailingDecimalPoint then "." else "") + (if style.emitTrailingZeroAfterPoint then "0" else "")
  }

  function Body(digits: string, point: int, after: nat): string {
    Whole(digits, point) + if after > 0 then "." + Fraction(digits, point, after) else ""
  }

  function DecimalText(digits: string, point: int, after: nat, style: Style): string {
    Body(digits, point, after) + Trailer(after, style)
  }

  /** "0.00000decimal_rep" */
  method AddBelowOne(digits: string, decimalPoint: int, digitsAfterPoint: nat, builder: StringBuilder)
    requires decimalPoint <= 0 && |digits| - decimalPoint <= digitsAfterPoint
    modifies builder
    ensures builder.text == old(builder.text) + Body(digits, decimalPoint, digitsAfterPoint)
  {
    hide Repeat;
    ghost var before := builder.text;
    builder.AddCharacter('0');
    if digitsAfterPoint > 0 {
      builder.AddCharacter('.');
      builder.AddPadding('0', -decimalPoint);
      builder.AddSubstring(digits);
      var remainingDigits := digitsAfterPoint - -decimalPoint - |digits|;
      builder.AddPadding('0', remainingDigits);
      Joined(before, "0", ".", Repeat('0', -decimalPoint), digits, Repeat('0', remainingDigits));
    }
  }

  /** "decimal_rep0000.00000" */
  method AddWhole(digits: string, decimalPoint: int, digitsAfterPoint: nat, builder: StringBuilder)
    requires decimalPoint > 0 && decimalPoint >= |digits|
    modifies builder
    ensures builder.text == old(builder.text) + Body(digits, decimalPoint, digitsAfterPoint)
  {
    hide Repeat;
    ghost var before := builder.text;
    builder.AddSubstring(digits);
    builder.AddPadding('0', decimalPoint - |digits|);
    ghost var zeros := Repeat('0', decimalPoint - |digits|);
    assert before + digits + zeros == before + (digits + zeros);
    if digitsAfterPoint > 0 {
      builder.AddCharacter('.');
      builder.AddPadding('0', digitsAfterPoint);
      assert before + (digits + zeros) + "." + Repeat('0', digitsAfterPoint)
          == before + (digits + zeros + ("." + Repeat('0', digitsAfterPoint)));
    }
  }

  /** "decima.l_rep000" */
  method AddMixed(digits: string, decimalPoint: int, digitsAfterPoint: nat, builder: StringBuilder)
    requires 0 < decimalPoint < |digits| && |digits| - decimalPoint <= digitsAfterPoint
    modifies builder
    ensures builder.text == old(builder.text) + Body(digits, decimalPoint, digitsAfterPoint)
  {
    hide Repeat;
    ghost var before, whole, fraction := builder.text, digits[..decimalPoint], digits[decimalPoint..];
    builder.AddSubstring(digits[..decimalPoint]);
    builder.AddCharacter('.');
    builder.AddSubstring(digits[decimalPoint..]);
    var remainingDigits := digitsAfterPoint - (|digits| - decimalPoint);
    builder.AddPadding('0', remainingDigits);
    assert before + whole + "." + fraction + Repeat('0', remainingDigits)
        == before + (whole + ("." + (fraction + Repeat('0', remainingDigits))));
  }

  method CreateDecimalRepresentation(digits: string, decimalPoint: int, digitsAfterPoint: nat, style: Style, builder: StringBuilder)
    requires |digits| - decimalPoint <= digitsAfterPoint
    modifies builder
    ensures builder.text == old(builder.text) + DecimalText(digits, decimalPoint, digitsAfterPoint, style)
  {
    hide Body;
    ghost var before := builder.text;
    if decimalPoint <= 0 {
      AddBelowOne(digits, decimalPoint, digitsAfterPoint, builder);
    } else if decimalPoint >= |digits| {
      AddWhole(digits, decimalPoint, digitsAfterPoint, builder);
    } else {
      AddMixed(digits, decimalPoint, digitsAfterPoint, builder);
    }
    ghost var body := Body(digits, decimalPoint, digitsAfterPoint);
    if digitsAfterPoint == 0 {
      if style.emitTrailingDecimalPoint {
        builder.AddCharacter('.');
      }
      if style.emitTrailingZeroAfterPoint {
        builder.AddCharacter('0');
      }
    }
    assert builder.text == before + body + Trailer(digitsAfterPoint, style);
  }

  lemma Joined(before: string, a: string, b: string, c: string, d: string, e: string)
    ensures before + a + b + c + d + e == before + (a + (b + (c + d + e)))
  {
  }

  // ----- The exponential form -----

  /** The digits of the exponent, without leading zeros; "0" for zero. */
  method ExponentDigits(exponent0: nat) returns (s: string)
    requires exponent0 < 10000
    ensures AllDigits(s) && 0 < |s| <= 4 && DecimalValue(s) == exponent0
    ensures s[0] == '0' ==> s == "0" && exponent0 == 0
  {
    hide DecimalValue, Pow;
    NoDigits();
    if exponent0 == 0 {
      DecimalAppend([], '0');
      return [] + ['0'];
    }
    var exponent: nat := exponent0;
    s := "";
    ghost var power: nat := 1;
    One();
    while exponent > 0
      invariant AllDigits(s) && power == Pow(10, |s|) && exponent0 == exponent * power + DecimalValue(s)
      invariant (exponent == 0 ==> s != "" && s[0] != '0') && |s| <= 4
    {
      ghost var tail := s;
      DecimalBound(tail);
      FourPlaces(exponent, power, |tail|, exponent0);
      s := [DigitChar(exponent % 10)] + s;
      FrontDigit(DigitChar(exponent % 10), tail);
      NextPlace(exponent0, exponent, power, DecimalValue(tail));
      TenMore(|tail|);
      power := 10 * power;
      exponent := exponent / 10;
    }
  }

  lemma FourPlaces(exponent: nat, power: nat, places: nat, total: nat)
    requires exponent > 0 && power == Pow(10, places) && exponent * power <= total < 10000
    ensures places < 4
  {
    hide Pow;
    MulMonotone(1, exponent, power);
    TenTo4();
    if places >= 4 {
      PowMonotone(10, 4, places);
    }
  }

  lemma NextPlace(total: int, exponent: nat, power: nat, rest: int)
    requires total == exponent * power + rest
    ensures total == exponent / 10 * (10 * power) + (exponent % 10 * power + rest)
  {
    var q, r := exponent / 10, exponent % 10;
    assert exponent == 10 * q + r;
    Distribute(10 * q, r, power);
    assert 10 * q * power == q * (10 * power);
  }

  function MantissaText(digits: string): string
    requires digits != ""
  {
    [digits[0]] + if |digits| > 1 then "." + digits[1..] else ""
  }

  function SignText(exponent: int, style: Style): string {
    if exponent < 0 then "-" else if style.emitPositiveExponentSign then "+" else ""
  }

  method CreateExponentialRepresentation(digits: string, exponent0: int, style: Style, builder: StringBuilder)
      returns (ghost exponentDigits: string)
    requires digits != "" && -10000 < exponent0 < 10000
    modifies builder
    ensures AllDigits(exponentDigits) && 0 < |exponentDigits| <= 4
    ensures DecimalValue(exponentDigits) == if exponent0 < 0 then -exponent0 else exponent0
    ensures exponentDigits[0] == '0' ==> exponentDigits == "0" && exponent0 == 0
    ensures builder.text
         == old(builder.text) + (MantissaText(digits) + [style.exponentCharacter] + SignText(exponent0, style) + exponentDigits)
  {
    hide DecimalValue;
    var exponent := exponent0;
    ghost var before := builder.text;
    builder.AddCharacter(digits[0]);
    if |digits| != 1 {
      builder.AddCharacter('.');
      builder.AddSubstring(digits[1..]);
    }
    assert builder.text == before + MantissaText(digits);
    builder.AddCharacter(style.exponentCharacter);
    if exponent < 0 {
      builder.AddCharacter('-');
      exponent := -exponent;
    } else if style.emitPositiveExponentSign {
      builder.AddCharacter('+');
    }
    assert builder.text == before + (MantissaText(digits) + [style.exponentCharacter] + SignText(exponent0, style));
    var s := ExponentDigits(exponent);
    builder.AddSubstring(s);
    exponentDigits := s;
  }

  // ----- How the texts look -----

  /** As many digits before the point as it asks for, "0" where it stands before all digits; behind it exactly the given
      number of digits, and where that is none the point, or the point and a zero, only if their flags are set. */
  predicate DecimalForm(text: string, point: int, after: nat, style: Style) {
    var whole := Max(1, point);
    && whole <= |text| && AllDigits(text[..whole]) && (point <= 0 ==> text[0] == '0')
    && TailForm(text[whole..], after, style)
  }

  predicate TailForm(tail: string, after: nat, style: Style) {
    if after > 0 then |tail| == 1 + after && tail[0] == '.' && AllDigits(tail[1..])
    else tail == if style.emitTrailingZeroAfterPoint then ".0" else if style.emitTrailingDecimalPoint then "." else ""
  }

  /** The first digit, the others behind a point if there are any, the exponent character, a minus exactly for a negative
      exponent, a plus for the others exactly if its flag is set, and the exponent without leading zeros. */
  predicate ExponentialForm(text: string, digits: string, exponent: int, style: Style)
    requires digits != ""
  {
    var end := if |digits| == 1 then 1 else |digits| + 1;
    && end + 1 < |text| && text[0] == digits[0] && (|digits| > 1 ==> text[1] == '.' && text[2..end] == digits[1..])
    && text[end] == style.exponentCharacter
    && ExponentForm(text[end + 1..], exponent, style)
  }

  predicate ExponentForm(s: string, exponent: int, style: Style)
    requires s != ""
  {
    var signed := exponent < 0 || style.emitPositiveExponentSign;
    && (signed ==> s[0] == if exponent < 0 then '-' else '+')
    && var e := if signed then s[1..] else s;
       && e != "" && AllDigits(e) && DecimalValue(e) == (if exponent < 0 then -exponent else exponent)
       && (e[0] == '0' ==> e == "0" && exponent == 0)
  }

  lemma DecimalLooks(digits: string, point: int, after: nat, style: Style)
    requires AllDigits(digits) && |digits| - point <= after && style.Valid()
    ensures DecimalForm(DecimalText(digits, point, after, style), point, after, style)
  {
    hide DecimalValue, AllDigits;
    var whole, fraction, text := Whole(digits, point), Fraction(digits, point, after), DecimalText(digits, point, after, style);
    DecimalDigits(digits, point, after);
    assert |whole| == Max(1, point);
    var tail := if after > 0 then "." + fraction else Trailer(after, style);
    assert text == whole + tail;
    assert text[..|whole|] == whole && text[|whole|..] == tail;
    if after > 0 {
      assert tail[1..] == fraction;
    }
  }

  lemma ExponentialLooks(digits: string, exponent: int, style: Style, exponentDigits: string)
    requires digits != "" && exponentDigits != "" && AllDigits(exponentDigits)
    requires DecimalValue(exponentDigits) == if exponent < 0 then -exponent else exponent
    requires exponentDigits[0] == '0' ==> exponentDigits == "0" && exponent == 0
    ensures ExponentialForm(MantissaText(digits) + [style.exponentCharacter] + SignText(exponent, style) + exponentDigits, digits, exponent, style)
  {
    hide DecimalValue, AllDigits;
    var mantissa, sign := MantissaText(digits), SignText(exponent, style);
    var text := mantissa + [style.exponentCharacter] + sign + exponentDigits;
    var end := |mantissa|;
    assert text[end + 1..] == sign + exponentDigits;
    assert text[..end] == mantissa;
    if |digits| > 1 {
      assert text[2..end] == mantissa[2..] == digits[1..];
    }
    assert (sign + exponentDigits)[|sign|..] == exponentDigits;
  }

  /** Is the exponent character in the text? */
  predicate HasExponent(text: string, style: Style) {
    style.exponentCharacter in text
  }

  lemma FormsDiffer(text: string, digits: string, point: int, after: nat, exponent: int, style: Style)
    requires style.Valid() && digits != ""
    ensures DecimalForm(text, point, after, style) ==> !HasExponent(text, style)
    ensures ExponentialForm(text, digits, exponent, style) ==> HasExponent(text, style)
  {
    hide DecimalValue;
    if DecimalForm(text, point, after, style) {
      var whole := Max(1, point);
      forall i | 0 <= i < |text| ensures text[i] == '.' || IsDigit(text[i]) {
        if i < whole {
          assert text[i] == text[..whole][i];
        } else {
          assert text[i] == text[whole..][i - whole];
          assert i > whole && after > 0 ==> text[i] == text[whole..][1..][i - whole - 1];
        }
      }
    }
  }

  // ----- What the texts say -----

  /** The text writes exactly the number with these digits and this decimal point. */
  ghost predicate Says(text: string, flags: Flags, digits: string, point: int) {
    && Magnitude(text, flags).Number?
    && var n := Magnitude(text, flags);
       if digits == "" then n.m == 0
       else n.p <= point - |digits| && n.m == DecimalValue(digits) * Pow(10, point - |digits| - n.p)
  }

  /** Nothing follows the mantissa. */
  lemma PlainMagnitude(s: string, flags: Flags, digits: string, fraction: nat)
    requires MantissaOf(s) == Mantissa(digits, fraction, |s|) && digits != "" && AllDigits(digits)
    ensures Magnitude(s, flags) == Number(NatValue(digits), 0 - fraction)
  {
    assert s[|s|..] == "" && s[|s| + 0..] == "";
  }

  lemma {:induction false} ZerosAreZero(count: int)
    ensures AllDigits(Repeat('0', count)) && DecimalValue(Repeat('0', count)) == 0
  {
    var s := Repeat('0', count);
    LeadingZeros(s, |s|);
    NoDigits();
    assert s[|s|..] == "";
  }

  /** Zeros behind digits multiply, zeros before them do not count. */
  lemma Padded(before: string, digits: string, after: string, count: nat)
    requires AllDigits(digits) && after == Repeat('0', count) && forall i :: 0 <= i < |before| ==> before[i] == '0'
    ensures AllDigits(before + digits + after) && DecimalValue(before + digits + after) == DecimalValue(digits) * Pow(10, count)
  {
    hide DecimalValue, Pow;
    var s := before + digits + after;
    assert s == before + (digits + after);
    ZerosAreZero(count);
    DecimalConcat(digits, after);
    assert s[|before|..] == digits + after;
    LeadingZeros(s, |before|);
    AllDigitsConcat(digits, after);
  }

  /** The digits of the decimal form are the given ones among zeros. */
  lemma DecimalDigits(digits: string, point: int, after: nat)
    requires AllDigits(digits) && |digits| - point <= after
    ensures AllDigits(Whole(digits, point)) && AllDigits(Fraction(digits, point, after))
    ensures |Fraction(digits, point, after)| == after && Whole(digits, point) != ""
    ensures digits == "" ==> DecimalValue(Whole(digits, point) + Fraction(digits, point, after)) == 0
    ensures digits != "" ==>
              DecimalValue(Whole(digits, point) + Fraction(digits, point, after)) == DecimalValue(digits) * Pow(10, after + point - |digits|)
  {
    hide DecimalValue, Pow;
    var all := Whole(digits, point) + Fraction(digits, point, after);
    var k := after + point - |digits|;
    NoDigits();
    if point <= 0 {
      if after > 0 {
        Padded("0" + Repeat('0', -point), digits, Repeat('0', k), k);
        assert all == "0" + Repeat('0', -point) + digits + Repeat('0', k);
      } else {
        Padded("0", "", "", 0);
        assert all == "0" + "" + "" && digits == "";
      }
    } else if point >= |digits| {
      Padded("", digits, Repeat('0', k), k);
      assert all == "" + digits + Repeat('0', k);
    } else {
      Padded("", digits, Repeat('0', k), k);
      assert all == "" + digits + Repeat('0', k);
    }
    if digits == "" && point > 0 {
      assert DecimalValue(digits) == 0;
    }
  }

  /** The decimal form writes the number with the given digits and point, in every style. */
  lemma DecimalSays(digits: string, point: int, after: nat, style: Style, flags: Flags)
    requires AllDigits(digits) && |digits| - point <= after && style.Valid()
    ensures Says(DecimalText(digits, point, after, style), flags, digits, point)
  {
    hide DecimalValue, Pow, MantissaOf, Magnitude, Whole, Fraction;
    var whole, fraction := Whole(digits, point), Fraction(digits, point, after);
    var text := DecimalText(digits, point, after, style);
    DecimalDigits(digits, point, after);
    if after > 0 {
      MantissaIs(whole, fraction, "");
      assert text == whole + "." + fraction + "";
      AllDigitsConcat(whole, fraction);
      PlainMagnitude(text, flags, whole + fraction, after);
    } else if style.emitTrailingZeroAfterPoint {
      MantissaIs(whole, "0", "");
      assert text == whole + "." + "0" + "";
      AllDigitsConcat(whole, "0");
      PlainMagnitude(text, flags, whole + "0", 1);
      assert whole + fraction == whole;
      DecimalAppend(whole, '0');
      if digits != "" {
        TenMore(point - |digits|);
        MulTen(DecimalValue(digits), Pow(10, point - |digits|));
      }
    } else {
      MantissaIs(whole, "", "");
      assert whole + fraction == whole && whole + "" == whole;
      if style.emitTrailingDecimalPoint {
        assert text == whole + "." + "" + "";
      } else {
        assert text == whole + "";
      }
      PlainMagnitude(text, flags, whole, 0);
    }
  }

  /** The exponent part of a text. */
  lemma PowerIs(e: char, exponent: int, style: Style, exponentDigits: string, flags: Flags)
    requires (e == 'e' || e == 'E') && AllDigits(exponentDigits) && exponentDigits != ""
    requires DecimalValue(exponentDigits) == if exponent < 0 then -exponent else exponent
    ensures var s := [e] + SignText(exponent, style) + exponentDigits;
            PowerOf(s, flags) == Power(exponent, |s|)
  {
    hide DecimalValue, DigitsOf;
    var sign := SignText(exponent, style);
    var s := [e] + sign + exponentDigits;
    assert s[1..] == sign + exponentDigits;
    assert SignLength(s[1..]) == |sign|;
    assert s[1 + |sign|..] == exponentDigits + "";
    DigitsThen(exponentDigits, "");
  }

  /** The exponential form writes the number with the given digits and exponent. */
  lemma ExponentialSays(digits: string, exponent: int, style: Style, exponentDigits: string, flags: Flags)
    requires AllDigits(digits) && digits != "" && style.Valid()
    requires AllDigits(exponentDigits) && exponentDigits != ""
    requires DecimalValue(exponentDigits) == if exponent < 0 then -exponent else exponent
    ensures Says(MantissaText(digits) + [style.exponentCharacter] + SignText(exponent, style) + exponentDigits, flags, digits, exponent + 1)
  {
    hide DecimalValue, Pow, MantissaOf, PowerOf, SignText;
    var tail := [style.exponentCharacter] + SignText(exponent, style) + exponentDigits;
    var text := MantissaText(digits) + [style.exponentCharacter] + SignText(exponent, style) + exponentDigits;
    assert text == MantissaText(digits) + tail;
    MantissaIs([digits[0]], digits[1..], tail);
    assert [digits[0]] + digits[1..] == digits;
    if |digits| > 1 {
      assert text == [digits[0]] + "." + digits[1..] + tail;
    } else {
      assert text == [digits[0]] + tail && digits == [digits[0]];
    }
    var mantissa := MantissaOf(text);
    assert mantissa.digits == digits && mantissa.fraction == |digits| - 1 && mantissa.end == |MantissaText(digits)|;
    assert text[mantissa.end..] == tail;
    PowerIs(style.exponentCharacter, exponent, style, exponentDigits, flags);
    assert text[mantissa.end + |tail|..] == "";
    One();
    assert DecimalValue(digits) * 1 == DecimalValue(digits);
  }

  /** A text that writes a number is read as that number, rounded. */
  lemma SaysRounds(text: string, flags: Flags, digits: string, point: int, d: Ieee.Double)
    requires AllDigits(digits) && Says(text, flags, digits, point)
    requires var n := Magnitude(text, flags); Ieee.RoundsTo(d, n.m, n.p)
    ensures DecimalValue(digits) >= 0 && Ieee.RoundsTo(d, DecimalValue(digits), point - |digits|)
  {
    hide DecimalValue, Pow, Magnitude, Ieee.RoundsTo, SameSides;
    DecimalBound(digits);
    var n := Magnitude(text, flags);
    if digits == "" {
      NoDigits();
      Strtods.ZeroRounds(n.p);
      Strtods.ZeroRounds(point);
      Ieee.RoundingIsUnique(d, 0, 0, n.p);
    } else {
      TrimKeepsSides(DecimalValue(digits), point - |digits| - n.p, n.p);
      SameRounding(n.m, n.p, DecimalValue(digits), point - |digits|, d);
    }
  }

  // ----- From a double to text and back -----

  /** ToShortestIeeeNumber, without the sign: the decimal form where the exponent lies between the given limits. */
  method ToShortest(digits: string, decimalPoint: int, low: int, high: int, style: Style, flags: Flags) returns (text: string)
    requires AllDigits(digits) && digits != "" && style.Valid() && -1000 <= decimalPoint <= 1000 && |digits| <= 17
    ensures Says(text, flags, digits, decimalPoint) && |text| <= 3000
    ensures HasExponent(text, style) <==> !(low <= decimalPoint - 1 < high)
    ensures low <= decimalPoint - 1 < high ==> DecimalForm(text, decimalPoint, Max(0, |digits| - decimalPoint), style)
    ensures !(low <= decimalPoint - 1 < high) ==> ExponentialForm(text, digits, decimalPoint - 1, style)
  {
    hide DecimalValue, Says, DecimalForm, ExponentialForm, HasExponent;
    var builder := new StringBuilder();
    var exponent := decimalPoint - 1;
    if low <= exponent < high {
      CreateDecimalRepresentation(digits, decimalPoint, Max(0, |digits| - decimalPoint), style, builder);
      DecimalSays(digits, decimalPoint, Max(0, |digits| - decimalPoint), style, flags);
      assert "" + DecimalText(digits, decimalPoint, Max(0, |digits| - decimalPoint), style)
          == DecimalText(digits, decimalPoint, Max(0, |digits| - decimalPoint), style);
      DecimalLooks(digits, decimalPoint, Max(0, |digits| - decimalPoint), style);
    } else {
      ghost var exponentDigits := CreateExponentialRepresentation(digits, exponent, style, builder);
      ExponentialSays(digits, exponent, style, exponentDigits, flags);
      ghost var s := MantissaText(digits) + [style.exponentCharacter] + SignText(exponent, style) + exponentDigits;
      assert "" + s == s;
      ExponentialLooks(digits, exponent, style, exponentDigits);
    }
    text := builder.text;
    FormsDiffer(text, digits, decimalPoint, Max(0, |digits| - decimalPoint), exponent, style);
  }

  /** The point of a finite positive double is nowhere near four digits. */
  lemma PointIsSmall(d: Ieee.Double, digits: string, decimalPoint: int)
    requires 0 < d < Ieee.INFINITY && AllDigits(digits) && digits != "" && DecimalValue(digits) >= Pow(10, |digits| - 1)
    requires Ieee.RoundsTo(d, DecimalValue(digits), decimalPoint - |digits|)
    ensures -324 < decimalPoint <= 309
  {
    hide DecimalValue, Pow, Ieee.RoundsTo;
    var m: nat := DecimalValue(digits);
    DecimalBound(digits);
    if decimalPoint > 309 {
      Strtods.HugeRounds(m, |digits|, decimalPoint - |digits|);
      Ieee.RoundingIsUnique(d, Ieee.INFINITY, m, decimalPoint - |digits|);
    } else if decimalPoint <= -324 {
      Strtods.TinyRounds(m, |digits|, decimalPoint - |digits|);
      Ieee.RoundingIsUnique(d, 0, m, decimalPoint - |digits|);
    }
  }

  /** Every finite positive double survives being printed, in either form and any style, and read back from its text. */
  method PrintAndReadText(d: Ieee.Double, estimatedPower: int, low: int, high: int, style: Style, flags: Flags,
                          binaryPowers: int -> CachedPower, decimalPowers: int -> CachedPower) returns (text: string, r: Reading)
    requires 0 < d < Ieee.INFINITY && GoodEstimate(Ieee.Significand(d), Ieee.Exponent(d), estimatedPower) && style.Valid()
    requires forall e: int :: -1140 <= e <= 1000 ==> Grisus.PowerFor(binaryPowers(e), e)
    requires Table(decimalPowers)
    ensures r == Value(false, d)
  {
    hide DecimalValue, Pow, Ieee.RoundsTo, GoodEstimate, Table, Says, Grisus.PowerFor, Magnitude;
    var buffer := new char[18](_ => '0');
    var length, decimalPoint := DoubleToShortest(d, estimatedPower, binaryPowers, buffer);
    var digits := buffer[..length];
    PointIsSmall(d, digits, decimalPoint);
    text := ToShortest(digits, decimalPoint, low, high, style, flags);
    assert Magnitude(text, flags).Number? by { SaysANumber(text, flags, digits, decimalPoint); }
    FirstIsNoSign(text, flags);
    r := StringToIeee(text, flags, decimalPowers);
    assert text[0..] == text;
    SaysRounds(text, flags, digits, decimalPoint, r.d);
    Ieee.RoundingIsUnique(d, r.d, DecimalValue(digits), decimalPoint - |digits|);
  }

  lemma SaysANumber(text: string, flags: Flags, digits: string, point: int)
    requires Says(text, flags, digits, point)
    ensures Magnitude(text, flags).Number?
  {
  }

  lemma FirstIsNoSign(text: string, flags: Flags)
    requires Magnitude(text, flags).Number?
    ensures text != "" && text[0] != '+' && text[0] != '-' && text[0] != ' '
  {
  }
}
