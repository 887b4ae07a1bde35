/** The counted version of Grisu3: a requested number of digits, or a refusal (fast-dtoa.cc). */
module FastCounted {
  import opened Arithmetic
  import opened Decimals
  import opened Deciding
  import opened ErrorAnalysis
  import opened DiyFps
  import opened DiyFpStrtods
  import opened FastDtoas
  import opened Grisus
  import opened Ieee
  import opened Intervals
  import opened Reals
  import opened Shortest
  import opened Weeding
  import CountedDigits

  /** Rounding to n' is certain: whichever number the approximation stands for, it is within half a place. */
  ghost predicate RoundedForSure(n: nat, n': nat, rest: nat, tenKappa: nat, unit: nat) {
    || (n' == n && 2 * (rest + unit) <= tenKappa)
    || (n' == n + 1 && 2 * rest >= tenKappa + 2 * unit)
  }

  /** Rounds the last digit up or down if the error cannot matter; a carry may move kappa. */
  method RoundWeedCounted(buffer: array<char>, length: nat, rest: nat, tenKappa: nat, unit: nat, kappa: int)
      returns (ok: bool, newKappa: int, ghost n': nat)
    requires 0 < length <= buffer.Length && AllDigits(buffer[..length]) && rest < tenKappa < WORD && unit < WORD
    modifies buffer
    ensures ok <==> 2 * unit < tenKappa && (2 * (rest + unit) <= tenKappa || 2 * (rest - unit) >= tenKappa)
    ensures ok ==>
              && AllDigits(buffer[..length]) && kappa <= newKappa <= kappa + 1
              && RoundedForSure(DecimalValue(old(buffer[..length])), n', rest, tenKappa, unit)
              && DecimalValue(buffer[..length]) * Pow(10, newKappa - kappa) == n'
  {
    hide Pow;
    newKappa, n' := kappa, DecimalValue(buffer[..length]);
    if unit >= tenKappa {
      return false, newKappa, n';
    }
    if tenKappa - unit <= unit {
      return false, newKappa, n';
    }
    if tenKappa - rest > rest {
      assert 2 * rest < WORD && 2 * unit < WORD;
      if tenKappa - 2 * rest >= 2 * unit {
        One();
        return true, newKappa, n';
      }
    }
    if rest > unit && tenKappa - (rest - unit) <= rest - unit {
      ghost var before := buffer[..length];
      buffer[length - 1] := buffer[length - 1] + 1 as char;
      OneMore(before, buffer[..length]);
      newKappa := CountedDigits.PropagateCarry(length, kappa, buffer);
      return true, newKappa, n' + 1;
    }
    return false, newKappa, n';
  }

  lemma OneMore(s: seq<char>, t: seq<char>)
    requires AllDigits(s) && |s| == |t| > 0 && t == s[|s| - 1 := s[|s| - 1] + 1 as char]
    ensures DecimalValue(t) == DecimalValue(s) + 1 && AllDigits(t[..|t| - 1]) && '0' <= t[|t| - 1] <= '0' + 10 as char
  {
    assert t[..|t| - 1] == s[..|s| - 1];
  }

  /** What is known about accepted digits: n are the leading digits of w, n' what they were rounded to. */
  ghost predicate CountedFor(w: nat, one: nat, kappa: int, n: nat, rest: nat, n': nat) {
    && Generated(w, one, n, kappa, rest)
    && RoundedForSure(n, n', rest, Ten(kappa) * one, Ten(-kappa))
  }

  /** At most requestedDigits digits of w, which is known to within one unit. */
  method DigitGenCounted(w: DiyFp, requestedDigits0: nat, buffer: array<char>)
      returns (ok: bool, length: nat, kappa: int, ghost kappa0: int, ghost n: nat, ghost rest: nat, ghost n': nat)
    requires MINIMAL_TARGET_EXPONENT <= w.e <= MAXIMAL_TARGET_EXPONENT
    requires 0x4000_0000_0000_0000 <= w.f < WORD && 0 < requestedDigits0 <= buffer.Length
    modifies buffer
    ensures ok ==>
              && length == requestedDigits0 && AllDigits(buffer[..length]) && kappa0 <= kappa <= kappa0 + 1
              && CountedFor(w.f, Pow(2, -w.e), kappa0, n, rest, n')
              && DecimalValue(buffer[..length]) * Pow(10, kappa - kappa0) == n'
  {
    hide Pow, Lowered, Holds, Generated, Ten, Join, DecimalValue;
    var requestedDigits, wError := requestedDigits0, 1;
    var one := Pow(2, -w.e);
    var integrals: nat, fractionals: nat := w.f / one, w.f % one;
    SplitTooHigh(w.f, -w.e, integrals, fractionals);
    var divisor, exponentPlusOne := BiggestPowerTen(integrals, 64 + w.e);
    kappa, length, n, rest, n' := exponentPlusOne, 0, 0, w.f, 0;
    Start(w.f, one, kappa, integrals, fractionals, divisor);
    while kappa > 0 && requestedDigits > 0
      invariant 0 <= kappa <= exponentPlusOne && length + requestedDigits == requestedDigits0
      invariant Holds(buffer[..length], n) && (length == 0 ==> n == 0 && kappa > 0 && divisor <= integrals)
      invariant kappa > 0 && requestedDigits > 0 ==> divisor == Pow(10, kappa - 1) && integrals < 10 * divisor
      invariant requestedDigits > 0 ==> divisor * one < WORD
      invariant requestedDigits == 0 ==> kappa >= 0 && Ten(-kappa) == 1 && Ten(kappa) == divisor && divisor * one < WORD && length > 0
      invariant kappa == 0 ==> integrals == 0
      invariant rest == Join(integrals, one, fractionals) && fractionals < one
      invariant Generated(w.f, one, n, kappa, rest)
      decreases kappa
    {
      ghost var digit := 0;
      integrals, digit := IntegralDigit(buffer, length, one, integrals, divisor, fractionals, w.f, n, kappa);
      length := length + 1;
      requestedDigits := requestedDigits - 1;
      kappa := kappa - 1;
      n, rest := 10 * n + digit, Join(integrals, one, fractionals);
      if requestedDigits > 0 {
        if kappa > 0 {
          NextDivisor(kappa, divisor, one);
        } else {
          SmallerDivisor(divisor, one);
        }
        divisor := divisor / 10;
      }
    }
    kappa0 := kappa;
    if requestedDigits == 0 {
      var remaining := Join(integrals, one, fractionals);
      ok, kappa, n' := WeedCounted(buffer, length, w.f, one, kappa, remaining, divisor, n);
      return;
    }
    ok, length, kappa, kappa0, n, rest, n' := FractionalDigitsCounted(w.f, one, fractionals, requestedDigits, buffer, length, n);
  }

  lemma SmallerDivisor(divisor: nat, one: nat)
    requires divisor * one < WORD
    ensures (divisor / 10) * one < WORD
  {
    MulMonotone(divisor / 10, divisor, one);
  }

  method WeedCounted(buffer: array<char>, length: nat, w: nat, one: nat, kappa: int, rest: nat, divisor: nat, ghost n: nat)
      returns (ok: bool, newKappa: int, ghost n': nat)
    requires 0 < length <= buffer.Length && Holds(buffer[..length], n) && Generated(w, one, n, kappa, rest)
    requires Ten(-kappa) == 1 && Ten(kappa) == divisor && divisor * one < WORD
    modifies buffer
    ensures ok ==>
              && AllDigits(buffer[..length]) && kappa <= newKappa <= kappa + 1
              && CountedFor(w, one, kappa, n, rest, n')
              && DecimalValue(buffer[..length]) * Pow(10, newKappa - kappa) == n'
  {
    hide Pow, Ten, DecimalValue;
    ok, newKappa, n' := RoundWeedCounted(buffer, length, rest, divisor * one, 1, kappa);
  }

  method FractionalDigitsCounted(w: nat, one: nat, fractionals0: nat, requestedDigits0: nat,
                                 buffer: array<char>, length0: nat, ghost n0: nat)
      returns (ok: bool, length: nat, kappa: int, ghost kappa0: int, ghost n: nat, ghost rest: nat, ghost n': nat)
    requires 0 < one <= 0x1000_0000_0000_0000 && requestedDigits0 > 0
    requires 0 < length0 && length0 + requestedDigits0 <= buffer.Length && Holds(buffer[..length0], n0)
    requires Generated(w, one, n0, 0, fractionals0)
    modifies buffer
    ensures ok ==>
              && length == length0 + requestedDigits0 && AllDigits(buffer[..length]) && kappa0 <= kappa <= kappa0 + 1
              && CountedFor(w, one, kappa0, n, rest, n')
              && DecimalValue(buffer[..length]) * Pow(10, kappa - kappa0) == n'
  {
    hide Pow, Holds, Generated, Ten, DecimalValue;
    var fractionals, wError, requestedDigits := fractionals0, 1, requestedDigits0;
    length, kappa, n, rest, n' := length0, 0, n0, fractionals0, 0;
    TenPowers(0);
    FractionBelow(w, one, n, kappa, fractionals);
    while requestedDigits > 0 && fractionals > wError
      invariant kappa <= 0 && wError == Ten(-kappa) < WORD && Ten(kappa) == 1
      invariant fractionals == rest < one && 0 < length && length + requestedDigits == length0 + requestedDigits0
      invariant Holds(buffer[..length], n) && Generated(w, one, n, kappa, fractionals)
      decreases requestedDigits
    {
      wError := wError * 10;
      var digit;
      fractionals, digit := FractionalDigit(buffer, length, one, fractionals, w, n, kappa);
      length := length + 1;
      requestedDigits := requestedDigits - 1;
      kappa := kappa - 1;
      n, rest := 10 * n + digit, fractionals;
    }
    kappa0 := kappa;
    if requestedDigits != 0 {
      return false, length, kappa, kappa0, n, rest, n';
    }
    ok, kappa, n' := WeedFractionCounted(buffer, length, w, one, kappa, fractionals, wError, n);
  }

  method WeedFractionCounted(buffer: array<char>, length: nat, w: nat, one: nat, kappa: int, rest: nat, unit: nat, ghost n: nat)
      returns (ok: bool, newKappa: int, ghost n': nat)
    requires 0 < length <= buffer.Length && Holds(buffer[..length], n) && Generated(w, one, n, kappa, rest)
    requires unit == Ten(-kappa) < WORD && Ten(kappa) == 1 && 0 < one < WORD
    modifies buffer
    ensures ok ==>
              && AllDigits(buffer[..length]) && kappa <= newKappa <= kappa + 1
              && CountedFor(w, one, kappa, n, rest, n')
              && DecimalValue(buffer[..length]) * Pow(10, newKappa - kappa) == n'
  {
    hide Pow, Ten, DecimalValue;
    ok, newKappa, n' := RoundWeedCounted(buffer, length, rest, one, unit, kappa);
  }

  /** Whatever number w stands for, the rounded digits are within half a place of it. */
  lemma CountedIsNearest(w: nat, e: int, kappa: int, n: nat, rest: nat, n': nat, wT: real)
    requires e <= 0 && CountedFor(w, Pow(2, -e), kappa, n, rest, n') && w as real - 1.0 < wT < w as real + 1.0
    ensures 2.0 * AbsR(InUnits(n', kappa, e) - wT) < InUnits(1, kappa, e)
  {
    hide Ten, Pow, InUnits;
    var unit, t := Ten(-kappa), Ten(kappa) * Pow(2, -e);
    UnitsAreInts(n', kappa, e);
    UnitsAreInts(1, kappa, e);
    NearestInts(w, n, n', rest, t, unit, InUnits(n', kappa, e), InUnits(1, kappa, e), wT);
  }

  lemma NearestInts(w: nat, n: nat, n': nat, rest: nat, t: nat, unit: nat, x: real, place: real, wT: real)
    requires unit > 0 && w * unit == n * t + rest && rest < t && RoundedForSure(n, n', rest, t, unit)
    requires x * (unit as real) == (n' * t) as real && place * (unit as real) == (1 * t) as real
    requires w as real - 1.0 < wT < w as real + 1.0
    ensures 2.0 * AbsR(x - wT) < place
  {
    var nearest, total := n' * t, w * unit;
    Margins(n, n', rest, t, unit, nearest, total);
    var omega := Around(w, unit, wT, total);
    HalfPlace(x, wT, place, unit as real, nearest as real, omega, t as real);
  }

  lemma Margins(n: nat, n': nat, rest: nat, t: nat, unit: nat, nearest: int, total: int)
    requires total == n * t + rest && nearest == n' * t && rest < t && RoundedForSure(n, n', rest, t, unit)
    ensures 0 <= t + 2 * (nearest - total) - 2 * unit && 2 * (nearest - total) + 2 * unit <= t
  {
    Distribute(n, 1, t);
  }

  lemma Around(w: nat, unit: nat, wT: real, total: int) returns (omega: real)
    requires unit > 0 && total == w * unit && w as real - 1.0 < wT < w as real + 1.0
    ensures omega == wT * (unit as real) && total as real - unit as real < omega < total as real + unit as real
  {
    CastProduct(w, unit);
    omega := wT * (unit as real);
    AroundR(w as real, unit as real, wT, omega, total as real);
  }

  lemma AroundR(w: real, u: real, wT: real, omega: real, total: real)
    requires u > 0.0 && total == w * u && w - 1.0 < wT < w + 1.0 && omega == wT * u
    ensures total - u < omega < total + u
  {
    var x, y := wT - w, w - wT;
    StrictR(x, 1.0, u);
    StrictR(y, 1.0, u);
    assert x * u == omega - total;
    assert y * u == total - omega;
  }

  lemma HalfPlace(x: real, wT: real, place: real, u: real, xt: real, omega: real, t: real)
    requires u > 0.0 && x * u == xt && omega == wT * u && place * u == t
    requires -t < 2.0 * (xt - omega) < t
    ensures 2.0 * AbsR(x - wT) < place
  {
    var y := x - wT;
    DistributeR(x, wT, u);
    OneSide(y, place, u, xt - omega);
    OneSide(-y, place, u, omega - xt);
  }

  lemma OneSide(y: real, place: real, u: real, z: real)
    requires u > 0.0 && z == y * u && 2.0 * z < place * u
    ensures 2.0 * y < place
  {
    Twofold(y, u);
    if 2.0 * y >= place {
      MonotoneR(place, 2.0 * y, u);
    }
  }

  /** The requested number of digits of a double, or a refusal: rounded correctly at their place. */
  method Grisu3Counted(d: Double, requestedDigits: nat, powers: int -> CachedPower, buffer: array<char>)
      returns (ok: bool, length: nat, decimalExponent: int, ghost place: int, ghost n': nat)
    requires 0 < d < INFINITY && 0 < requestedDigits <= buffer.Length
    requires forall e: int :: -1140 <= e <= 1000 ==> PowerFor(powers(e), e)
    modifies buffer
    ensures ok ==>
              && length == requestedDigits && AllDigits(buffer[..length]) && place <= decimalExponent <= place + 1
              && DecimalValue(buffer[..length]) * Pow(10, decimalExponent - place) == n'
              && CountedDigits.RoundedAt(n', 2 * Units(d), Pow(2, 1075), -place)
  {
    hide Pow, CountedFor, PowerFor, Rounded, DecimalValue, ScaledUnits, Units, CountedDigits.RoundedAt;
    var w := AsNormalizedDiyFp(d);
    ghost var f, x := Significand(d), Exponent(d);
    ShiftAtMost(f, x - w.e);
    var c := powers(w.e);
    assert PowerFor(c, w.e);
    PowerRange(c, w.e);
    var tenMk := new DiyFp(c.f, c.e);
    var scaledW := Times(w, tenMk);
    TwiceUnits(d);
    ScaleOne(f, x, w.e, w.f, c, 2 * Units(d));
    RoundedAtLeast(w.f, MSB, c.f);
    RoundedTop(w.f, c.f);
    var kappa;
    ghost var kappa0, n, rest;
    ok, length, kappa, kappa0, n, rest, n' := DigitGenCounted(scaledW, requestedDigits, buffer);
    decimalExponent := -c.decimalExponent + kappa;
    place := -c.decimalExponent + kappa0;
    if ok {
      RoundedFor(d, c.decimalExponent, scaledW.e, scaledW.f, kappa0, n, rest, n');
    }
  }

  lemma RoundedFor(d: Double, mk: int, e: int, w: nat, kappa: int, n: nat, rest: nat, n': nat)
    requires e <= 0 && CountedFor(w, Pow(2, -e), kappa, n, rest, n')
    requires w as real - 1.0 < ScaledUnits(2 * Units(d), mk, e) < w as real + 1.0
    ensures CountedDigits.RoundedAt(n', 2 * Units(d), Pow(2, 1075), mk - kappa)
  {
    hide Pow, CountedFor, InUnits, ScaledUnits, Units, TenR, Two;
    var p, v := kappa - mk, 2 * Units(d);
    CountedIsNearest(w, e, kappa, n, rest, n', ScaledUnits(v, mk, e));
    OffAtScale(n', p, v, mk, e);
    CompareScaled2(1, p, 0, mk, e);
    NothingScaled(mk, e);
    OnePlace(p);
    HalfAPlace(Compare(n', p, v), TenR(mk) * Two(-e), InUnits(n', kappa, e) - ScaledUnits(v, mk, e), OffUnit(p),
               InUnits(1, kappa, e), Ten(p) * Pow(2, 1075), Exact(1, p));
    HalfUpFromCompare(n', p, v);
  }

  lemma NothingScaled(mk: int, e: int)
    ensures ScaledUnits(0, mk, e) == 0.0
  {
  }

  /** 10^p in the units of Compare. */
  lemma OnePlace(p: int)
    ensures Exact(1, p) * OffUnit(p) == (Ten(p) * Pow(2, 1075)) as real
  {
    hide TenR, Pow, Ten;
    TenRatio(p);
    CastProduct(Ten(p), Pow(2, 1075));
    var t, y, b := TenR(p), Ten(-p) as real, Pow(2, 1075) as real;
    assert Exact(1, p) == t;
    assert t * (y * b) == (t * y) * b;
  }

  lemma HalfAPlace(k: int, f: real, x: real, g: real, place: real, one: int, ten: real)
    requires f > 0.0 && g > 0.0 && (k as real) * f == x * g && 2.0 * AbsR(x) < place && place == ten * f && ten * g == one as real
    ensures -one < 2 * k < one
  {
    var u := x * g;
    AbsScale(x, g, u);
    AbsScale(k as real, f, u);
    StrictR(2.0 * AbsR(x), place, g);
    Twofold(AbsR(x), g);
    Twofold(AbsR(k as real), f);
    assert (ten * f) * g == (ten * g) * f;
    CancelR(2.0 * AbsR(k as real), one as real, f);
  }

  lemma HalfUpFromCompare(n: nat, p: int, v: nat)
    requires -(Ten(p) * Pow(2, 1075)) < 2 * Compare(n, p, v) < Ten(p) * Pow(2, 1075)
    ensures CountedDigits.RoundedAt(n, v, Pow(2, 1075), -p)
  {
    hide Pow;
    Zero();
    var b := Pow(2, 1075);
    assert (n * Ten(p)) * b == n * (b * Ten(p));
    assert b * Ten(p) == Ten(p) * b;
  }
}
