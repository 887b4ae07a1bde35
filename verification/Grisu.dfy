/** Grisu3 on doubles: what it accepts is the shortest decimal, and the closest of those (fast-dtoa.cc). */
module Grisus {
  import opened Arithmetic
  import opened Decimals
  import opened Deciding
  import opened DiyFps
  import opened DiyFpStrtods
  import opened ErrorAnalysis
  import opened FastDtoas
  import opened Ieee
  import opened Intervals
  import opened Reals
  import opened Shortest
  import opened Weeding
  import Cutting

  /** The significand shifted to the top of a 64-bit word. */
  method AsNormalizedDiyFp(d: Double) returns (r: DiyFp)
    requires 0 < d < INFINITY
    ensures fresh(r) && r.Valid() && r.f >= MSB && r.e <= Exponent(d)
    ensures r.f == Significand(d) * Pow(2, Exponent(d) - r.e)
  {
    hide Pow, HasHiddenBit;
    var f, e := Significand(d), Exponent(d);
    ghost var f0, e0 := f, e;
    FewPowers2();
    while !HasHiddenBit(f)
      invariant 0 < f < 2 * HIDDEN_BIT && e <= e0 && f == f0 * Pow(2, e0 - e)
      decreases 2 * HIDDEN_BIT - f
    {
      ShiftMore(f0, f, e0 - e, 1);
      f, e := f * 2, e - 1;
    }
    PowAdd(2, e0 - e, 11);
    Associate(f0, Pow(2, e0 - e), Pow(2, 11));
    f := f * 0x800;
    e := e - 11;
    r := new DiyFp(f, e);
  }

  lemma FewPowers2()
    ensures Pow(2, 0) == 1 && Pow(2, 11) == 0x800
  {
  }

  /** Both boundaries, exactly, with the exponent of the normalized upper one. */
  method NormalizedBoundaries(d: Double) returns (mMinus: DiyFp, mPlus: DiyFp)
    requires 0 < d < INFINITY
    ensures fresh(mMinus) && fresh(mPlus) && mMinus.Valid() && mPlus.Valid() && mPlus.f >= MSB
    ensures mMinus.e == mPlus.e <= Exponent(d) - 2
    ensures mPlus.f == (2 * Significand(d) + 1) * Pow(2, Exponent(d) - 1 - mPlus.e)
    ensures if LowerBoundaryIsCloser(d) then mMinus.f == (4 * Significand(d) - 1) * Pow(2, Exponent(d) - 2 - mPlus.e)
            else mMinus.f == (2 * Significand(d) - 1) * Pow(2, Exponent(d) - 1 - mPlus.e)
    ensures mPlus.f < WORD
  {
    hide Pow;
    var f, e := Significand(d), Exponent(d);
    assert 0 < f < 2 * HIDDEN_BIT;
    mPlus := new DiyFp(2 * f + 1, e - 1);
    mPlus.Normalize();
    EnoughShift2(f, e - 1 - mPlus.e, mPlus.f);
    if LowerBoundaryIsCloser(d) {
      CloserBelow(f, e - 1 - mPlus.e, mPlus.f);
      mMinus := new DiyFp((4 * f - 1) * Pow(2, e - 2 - mPlus.e), mPlus.e);
    } else {
      FarBelow2(f, e - 1 - mPlus.e, mPlus.f);
      mMinus := new DiyFp((2 * f - 1) * Pow(2, e - 1 - mPlus.e), mPlus.e);
    }
  }

  /** A significand of 53 bits moves up by at least ten places. */
  lemma EnoughShift2(f: nat, s: nat, g: nat)
    requires 0 < f < 2 * HIDDEN_BIT && g == (2 * f + 1) * Pow(2, s) && g >= MSB
    ensures s >= 10
  {
    hide Pow;
    if s < 10 {
      var nine := 9;
      PowMonotone(2, s, nine);
      Nine();
      MulMonotone(Pow(2, s), 512, 2 * f + 1);
    }
  }

  lemma Nine()
    ensures Pow(2, 9) == 512 && Pow(2, 10) == 1024
  {
  }

  lemma CloserBelow(f: nat, s: nat, g: nat)
    requires f > 0 && s >= 1 && g == (2 * f + 1) * Pow(2, s) && g < WORD
    ensures 0 <= (4 * f - 1) * Pow(2, s - 1) && (4 * f - 1) * Pow(2, s - 1) + 3 * Pow(2, s - 1) == g
  {
    hide Pow;
    Doubled(s - 1);
    var k := Pow(2, s - 1);
    assert (2 * f + 1) * (2 * k) == (4 * f - 1) * k + 3 * k;
    MulMonotone(0, 4 * f - 1, k);
  }

  lemma FarBelow2(f: nat, s: nat, g: nat)
    requires f > 0 && g == (2 * f + 1) * Pow(2, s) && g < WORD
    ensures 0 <= (2 * f - 1) * Pow(2, s) && (2 * f - 1) * Pow(2, s) + 2 * Pow(2, s) == g
  {
    hide Pow;
    var k := Pow(2, s);
    assert (2 * f + 1) * k == (2 * f - 1) * k + 2 * k;
    MulMonotone(0, 2 * f - 1, k);
  }

  /** The normalized number and its normalized upper boundary have the same exponent. */
  lemma SameExponent(f: nat, s: nat, t: nat, w: nat, g: nat)
    requires 0 < f < 2 * HIDDEN_BIT && w == f * Pow(2, s) && MSB <= w < WORD
    requires g == (2 * f + 1) * Pow(2, t) && MSB <= g < WORD
    ensures s == t + 1
  {
    hide Pow;
    var k := Pow(2, s);
    assert (2 * f + 1) * k == 2 * (f * k) + k;
    if s > t + 1 {
      RoomAbove(f, s);
      Doubled(s - 2);
      Doubled(s - 1);
      PowMonotone(2, t, s - 2);
      Quarter(f, Pow(2, s - 2), Pow(2, t), w, g);
    } else if s < t + 1 {
      PowMonotone(2, s, t);
      MulMonotone(k, Pow(2, t), 2 * f + 1);
    }
  }

  lemma Quarter(f: nat, k: nat, p: nat, w: nat, g: nat)
    requires w == f * (4 * k) && (f + 1) * (4 * k) <= WORD && p <= k && g == (2 * f + 1) * p && k >= 1
    ensures g < MSB
  {
    MulMonotone(p, k, 2 * f + 1);
    assert (2 * f + 1) * k == 2 * (f * k) + k;
    assert (f + 1) * (4 * k) == 4 * (f * k) + 4 * k;
  }

  lemma RoomAbove(f: nat, s: nat)
    requires f > 0 && f * Pow(2, s) < WORD
    ensures (f + 1) * Pow(2, s) <= WORD
  {
    hide Pow;
    Sixty();
    MulMonotone(1, f, Pow(2, s));
    if s >= 64 {
      PowMonotone(2, 64, s);
      assert false;
    }
    PowAdd(2, 64 - s, s);
    MulCancel(f, Pow(2, 64 - s), Pow(2, s));
    MulMonotone(f + 1, Pow(2, 64 - s), Pow(2, s));
  }

  method Times(a: DiyFp, b: DiyFp) returns (r: DiyFp)
    requires a.Valid() && b.Valid()
    ensures fresh(r) && r.Valid() && r.f == Rounded(a.f * b.f) && r.e == a.e + b.e + 64
  {
    r := new DiyFp(a.f, a.e);
    r.Multiply(b);
  }

  /** The cached power for a number with exponent e: within half a unit in the last place, and bringing the
      product's exponent into the range digit generation can handle. */
  ghost predicate PowerFor(c: CachedPower, e: int) {
    && MSB <= c.f < WORD
    && -0.5 <= TenR(c.decimalExponent) * Two(-c.e) - c.f as real <= 0.5
    && MINIMAL_TARGET_EXPONENT <= e + c.e + 64 <= MAXIMAL_TARGET_EXPONENT
  }

  /** A number known exactly, scaled: it is off by less than a unit. */
  lemma ScaledIsClose(v: real, f: nat, e: int, c: CachedPower, product: real)
    requires f < WORD && v * Two(-e) == f as real && PowerFor(c, e) && product == v * TenR(c.decimalExponent)
    ensures var g := Rounded(f * c.f);
            g as real - 1.0 < product * Two(-(e + c.e + 64)) < g as real + 1.0
  {
    hide Two, TenR, Rounded;
    assert Near(v, f, e, 0);
    ProductNear(v, f, e, 0, TenR(c.decimalExponent), c.f, c.e, false, product);
  }

  /** c * 2^(e - j) times 2^j is the value of the shifted significand. */
  lemma ShiftedIsExact(c: nat, x: int, e: int, f: nat, v: real)
    requires e <= x && f == c * Pow(2, x - e) && v == (c as real) * Two(x)
    ensures v * Two(-e) == f as real
  {
    hide Two, Pow;
    CastProduct(c, Pow(2, x - e));
    TwoIsPow(x - e);
    TwoAdd(x, -e);
    assert ((c as real) * Two(x)) * Two(-e) == (c as real) * (Two(x) * Two(-e));
  }

  /** A number of units of 2^-1075, as it is scaled for digit generation. */
  ghost function ScaledUnits(k: nat, mk: int, e: int): real {
    (((k as real) * Two(-1075)) * TenR(mk)) * Two(-e)
  }

  /** The real difference behind Compare. */
  lemma CompareScaled2(m: nat, p: int, k: nat, mk: int, e: int)
    ensures var factor := TenR(mk) * Two(-e);
            factor > 0.0 && InUnits(m, p + mk, e) - ScaledUnits(k, mk, e) == (Exact(m, p) - (k as real) * Two(-1075)) * factor
  {
    hide Two, TenR;
    ExactSum(m, p, mk);
    PositiveProduct(TenR(mk), Two(-e));
    var v, b := Exact(m, p), (k as real) * Two(-1075);
    FactorOut(v, b, TenR(mk), Two(-e));
  }

  lemma FactorOut(v: real, b: real, t: real, h: real)
    ensures (v * t) * h - (b * t) * h == (v - b) * (t * h)
  {
    assert (v * t) * h == v * (t * h);
    assert (b * t) * h == b * (t * h);
  }

  /** The side of a boundary, seen at the scale of digit generation. */
  lemma SideAtScale(m: nat, p: int, k: nat, mk: int, e: int)
    ensures Compare(m, p, k) < 0 <==> InUnits(m, p + mk, e) < ScaledUnits(k, mk, e)
    ensures Compare(m, p, k) > 0 <==> InUnits(m, p + mk, e) > ScaledUnits(k, mk, e)
  {
    hide Two, TenR, Compare, Exact, InUnits, ScaledUnits;
    CompareIsReal(m, p, k);
    CompareScaled2(m, p, k, mk, e);
    SignR(Exact(m, p) - (k as real) * Two(-1075), TenR(mk) * Two(-e), InUnits(m, p + mk, e) - ScaledUnits(k, mk, e));
  }

  lemma SignR(x: real, f: real, z: real)
    requires f > 0.0 && z == x * f
    ensures (x < 0.0 <==> z < 0.0) && (x > 0.0 <==> z > 0.0)
  {
    if x < 0.0 {
      StrictR(x, 0.0, f);
    } else if x > 0.0 {
      StrictR(0.0, x, f);
    }
  }

  function Product(f: nat, c: nat): nat {
    Rounded(f * c)
  }

  /** The three scaled numbers are far enough apart, and fit, so that digits can be generated. */
  lemma ReadyForDigits(f: nat, t: nat, closer: bool, minus: nat, w: nat, plus: nat, c: nat)
    requires 0 < f < 2 * HIDDEN_BIT && t >= 10 && (closer ==> f == HIDDEN_BIT) && MSB <= c < WORD
    requires w == f * Pow(2, t + 1) && MSB <= w && plus == (2 * f + 1) * Pow(2, t) && MSB <= plus < WORD
    requires if closer then minus == (4 * f - 1) * Pow(2, t - 1) else minus == (2 * f - 1) * Pow(2, t)
    ensures var low, mid, high := Product(minus, c), Product(w, c), Product(plus, c);
            && 1 < low && low + 1 <= high - 1 && low <= mid <= high && high + 1 < WORD
            && high + 1 >= 0x4000_0000_0000_0000 && high + 1 < (high - low + 2) * Pow(10, 16)
  {
    hide Pow, Rounded;
    var k := Pow(2, t - 1);
    Doubled(t - 1);
    Doubled(t);
    PowMonotone(2, 9, t - 1);
    Nine();
    Layout(f, k, closer, minus, w, plus);
    TenTo16();
    ReadyFromLayout(minus, w, plus, c);
  }

  lemma ReadyFromLayout(minus: nat, w: nat, plus: nat, c: nat)
    requires minus <= w <= plus < WORD && minus >= MSB / 2 && plus >= MSB && plus - minus >= 1536
    requires plus <= (plus - minus) * 1_0000_0000_0000_0000 && MSB <= c < WORD
    ensures var low, mid, high := Product(minus, c), Product(w, c), Product(plus, c);
            && 1 < low && low + 1 <= high - 1 && low <= mid <= high && high + 1 < WORD
            && high + 1 >= 0x4000_0000_0000_0000 && high + 1 < (high - low + 2) * 1_0000_0000_0000_0000
  {
    hide Rounded;
    RoundedGrows(minus, w, c);
    RoundedGrows(w, plus, c);
    RoundedAtLeast(minus, MSB / 2, c);
    RoundedAtLeast(plus, MSB, c);
    RoundedTop(plus, c);
    Apart(minus, plus, c);
  }

  lemma Layout(f: nat, k: nat, closer: bool, minus: nat, w: nat, plus: nat)
    requires 0 < f < 2 * HIDDEN_BIT && k >= 512 && (closer ==> f == HIDDEN_BIT)
    requires w == f * (4 * k) && w >= MSB && plus == (2 * f + 1) * (2 * k)
    requires if closer then minus == (4 * f - 1) * k else minus == (2 * f - 1) * (2 * k)
    ensures minus <= w <= plus && minus >= MSB / 2 && plus - minus >= 1536
    ensures plus <= (plus - minus) * 1_0000_0000_0000_0000
  {
    var x := f * k;
    assert w == 4 * x && (2 * f + 1) * (2 * k) == 4 * x + 2 * k;
    assert (4 * f - 1) * k == 4 * x - k && (2 * f - 1) * (2 * k) == 4 * x - 2 * k;
    MulMonotone(1, f, k);
    MulMonotone(f, 2 * HIDDEN_BIT - 1, k);
  }

  lemma RoundedTop(f: nat, g: nat)
    requires f < WORD && g < WORD
    ensures Rounded(f * g) <= WORD - 2
  {
    MulMonotone(f, WORD - 1, g);
    MulMonotone(g, WORD - 1, WORD - 1);
  }

  /** Rounding two products keeps them apart, and keeps their ratio in bounds. */
  lemma Apart(a: nat, b: nat, c: nat)
    requires a <= b && b - a >= 1536 && c >= MSB && b <= (b - a) * 1_0000_0000_0000_0000
    ensures Rounded(b * c) - Rounded(a * c) >= 2
    ensures Rounded(b * c) + 1 < (Rounded(b * c) - Rounded(a * c) + 2) * 1_0000_0000_0000_0000
  {
    var n := 1_0000_0000_0000_0000;
    var x, y := a * c, b * c;
    assert y - x == (b - a) * c;
    MulMonotone(1536, b - a, c);
    MulMonotone(b, (b - a) * n, c);
    assert ((b - a) * n) * c == ((b - a) * c) * n;
    RoundedApart(x, y, n);
  }

  lemma RoundedApart(x: nat, y: nat, n: nat)
    requires y - x >= 1536 * MSB && y <= (y - x) * n && n == 1_0000_0000_0000_0000
    ensures Rounded(y) - Rounded(x) >= 2
    ensures Rounded(y) + 1 < (Rounded(y) - Rounded(x) + 2) * n
  {
    var r, q := Rounded(y), Rounded(x);
    assert r * WORD <= y + MSB < (r + 1) * WORD && q * WORD <= x + MSB < (q + 1) * WORD;
  }

  /** Digits of an accepted number: the first one is not zero, and there are at most 17. */
  lemma AcceptedDigits(low: nat, w: nat, high: nat, one: nat, length: nat, kappa: int, n: nat, rest: nat, d: nat)
    requires Accepted(low, w, high, one, length, kappa, n, rest, d) && low > 0 && one > 0
    requires high + 1 < (high - low + 2) * Pow(10, 16)
    ensures n - d >= Pow(10, length - 1) && length <= 17
  {
    hide Pow, Ten, Settled, Accepted, Generated;
    WasGenerated(low, w, high, one, length, kappa, n, rest, d);
    AcceptedIsSafe(low, w, high, one, length, kappa, n, rest, d);
    var t, unit := Ten(kappa) * one, Ten(-kappa);
    if length == 1 {
      Zero();
      MulMonotone(1, low + 3, unit);
      MulCancel(0, n - d, t);
    } else {
      var k := Pow(10, length - 2);
      TenMore(length - 2);
      assert k * (10 * t) == Pow(10, length - 1) * t;
      MulMonotone(Pow(10, length - 1), n, t);
      MultiplesAreTooLow(low, w, high, one, length, kappa, n, rest, d, k);
      MulMonotone(low - 1, low + 3, unit);
      MulStrict(0, Ten(kappa), one);
      MulCancel(Pow(10, length - 1), n - d, t);
      BeforeTheLast(low, w, high, one, length, kappa, n, rest, d, k);
      if length > 17 {
        PowMonotone(10, 16, length - 2);
        MulMonotone(Pow(10, 16), k, high - low + 2);
      }
    }
  }

  /** The digits but the last were not enough, so the interval is narrow against the number. */
  lemma BeforeTheLast(low: nat, w: nat, high: nat, one: nat, length: nat, kappa: int, n: nat, rest: nat, d: nat, k: nat)
    requires Accepted(low, w, high, one, length, kappa, n, rest, d) && length > 1 && k == Pow(10, length - 2)
    ensures (high - low + 2) * k <= high + 1
  {
    hide Pow, Ten, Settled;
    var t, unit := Ten(kappa) * one, Ten(-kappa);
    TenMore(length - 2);
    Narrow(n / 10, n % 10, t, rest, k, high - low + 2, high + 1, unit);
  }

  lemma Narrow(n1: nat, d0: nat, t: nat, rest: nat, k: nat, width: nat, total: nat, unit: nat)
    requires unit > 0 && d0 <= 9 && rest < t && 10 * n1 + d0 >= 10 * k
    requires total * unit == (10 * n1 + d0) * t + rest && rest + d0 * t >= width * unit
    ensures width * k <= total
  {
    assert n1 >= k;
    assert (10 * n1 + d0) * t == n1 * (10 * t) + d0 * t;
    MulMonotone(d0, 9, t);
    MulMonotone(0, d0, t);
    MulMonotone(k, n1, 10 * t);
    MulMonotone(width * unit, 10 * t, k);
    assert (width * unit) * k == (width * k) * unit;
    MulCancel(width * k, total, unit);
  }

  /** The value of a double in units of 2^-1075 is significand and exponent again. */
  lemma ValueOf(c: nat, x: int)
    requires x + 1075 >= 0
    ensures ((c * Pow(2, x + 1075)) as real) * Two(-1075) == (c as real) * Two(x)
  {
    hide Two, Pow;
    BoundaryIsReal(c, x);
  }

  /** What the fast generator promises about the digits n and their last place p. */
  ghost predicate FastShortest(d: Double, n: nat, length: nat, p: int)
    requires 0 < d < INFINITY
  {
    && length > 0 && Pow(10, length - 1) <= n
    && ShortestDecimal(IntervalOf(d), n, length, p + length)
    && StrictlyClosest(IntervalOf(d), n, p)
    && UpperOff(IntervalOf(d), 1, p + length - 1) < 0 < UpperOff(IntervalOf(d), 1, p + length)
  }

  ghost predicate StrictlyClosest(t: Target, n: nat, p: int) {
    forall m: nat :: t.ContainsDecimal(m, p) && m != n ==> Abs(Off(t, n, p)) < Abs(Off(t, m, p))
  }

  /** Everything that is known when digits were accepted for the double d. */
  ghost predicate AcceptedFor(d: Double, mk: int, e: int, low: nat, w: nat, high: nat) {
    && 0 < d < INFINITY && e <= 0 && 1 < low
    && low as real - 1.0 < ScaledUnits(Boundary(d - 1), mk, e) < low as real + 1.0
    && w as real - 1.0 < ScaledUnits(2 * Units(d), mk, e) < w as real + 1.0
    && high as real - 1.0 < ScaledUnits(Boundary(d), mk, e) < high as real + 1.0
  }

  lemma BetweenBoundaries(d: Double, m: nat, p: int)
    requires 0 < d < INFINITY
    ensures Compare(m, p, Boundary(d - 1)) > 0 && Compare(m, p, Boundary(d)) < 0 ==> IntervalOf(d).ContainsDecimal(m, p)
    ensures IntervalOf(d).ContainsDecimal(m, p) ==> Compare(m, p, Boundary(d - 1)) >= 0 && Compare(m, p, Boundary(d)) <= 0
    ensures Off(IntervalOf(d), m, p) == Compare(m, p, 2 * Units(d))
    ensures UpperOff(IntervalOf(d), m, p) == Compare(m, p, Boundary(d))
  {
    hide Ten, Pow, Units, Ulp;
    IntervalRounds(d, m, p);
    Successor(d);
  }

  /** Candidates at the same place: those that round to d lie in the widened interval. */
  lemma WithinUnits(d: Double, mk: int, e: int, low: nat, w: nat, high: nat, m: nat, p: int)
    requires AcceptedFor(d, mk, e, low, w, high) && IntervalOf(d).ContainsDecimal(m, p)
    ensures low as real - 1.0 < InUnits(m, p + mk, e) < high as real + 1.0
  {
    hide Compare, InUnits, ScaledUnits, Boundary, Units, IntervalOf;
    BetweenBoundaries(d, m, p);
    SideAtScale(m, p, Boundary(d - 1), mk, e);
    SideAtScale(m, p, Boundary(d), mk, e);
  }

  lemma GrisuContains(d: Double, mk: int, e: int, low: nat, w: nat, high: nat,
                      length: nat, kappa: int, n: nat, rest: nat, k: nat)
    requires AcceptedFor(d, mk, e, low, w, high) && Accepted(low, w, high, Pow(2, -e), length, kappa, n, rest, k) && k <= n
    ensures IntervalOf(d).ContainsDecimal(n - k, kappa - mk)
  {
    hide Compare, InUnits, ScaledUnits, Boundary, Units, IntervalOf, Accepted, Pow;
    AcceptedIsInside(low, w, high, e, length, kappa, n, rest, k,
                     ScaledUnits(Boundary(d - 1), mk, e), ScaledUnits(Boundary(d), mk, e));
    SideAtScale(n - k, kappa - mk, Boundary(d - 1), mk, e);
    SideAtScale(n - k, kappa - mk, Boundary(d), mk, e);
    BetweenBoundaries(d, n - k, kappa - mk);
  }

  lemma GrisuNothingShorter(d: Double, mk: int, e: int, low: nat, w: nat, high: nat,
                            length: nat, kappa: int, n: nat, rest: nat, k: nat, m: nat, p: int)
    requires AcceptedFor(d, mk, e, low, w, high) && Accepted(low, w, high, Pow(2, -e), length, kappa, n, rest, k)
    requires length > 0 && m < Pow(10, length - 1)
    ensures !IntervalOf(d).ContainsDecimal(m, p)
  {
    hide InUnits, ScaledUnits, Boundary, Units, IntervalOf, Accepted, Pow, Ten, AcceptedFor;
    PositivePower(-e);
    WasAccepted(d, mk, e, low, w, high);
    if IntervalOf(d).ContainsDecimal(m, p) {
      var q, one := p + mk, Pow(2, -e);
      NothingShorter(low, w, high, one, length, kappa, n, rest, k, m, q);
      WithinUnits(d, mk, e, low, w, high, m, p);
      UnitsAreInts(m, q, e);
      Regroup3(m, Ten(q), one);
      OutsideUnits(InUnits(m, q, e), low - 1, high + 1, m * (Ten(q) * one), Ten(-q));
    }
  }

  lemma WasAccepted(d: Double, mk: int, e: int, low: nat, w: nat, high: nat)
    requires AcceptedFor(d, mk, e, low, w, high)
    ensures 0 < d < INFINITY && e <= 0 && 1 < low
  {
  }

  lemma PositivePower(n: int)
    ensures n >= 0 ==> Pow(2, n) > 0
  {
  }

  lemma Regroup3(a: int, b: int, c: int)
    ensures (a * b) * c == a * (b * c)
  {
  }

  lemma OutsideUnits(x: real, a: nat, b: nat, k: nat, unit: nat)
    requires unit > 0 && x * (unit as real) == k as real && (k <= a * unit || k >= b * unit)
    ensures x <= a as real || x >= b as real
  {
    CastProduct(a, unit);
    CastProduct(b, unit);
    if a as real < x && x < b as real {
      StrictR(a as real, x, unit as real);
      StrictR(x, b as real, unit as real);
    }
  }

  lemma GrisuClosest(d: Double, mk: int, e: int, low: nat, w: nat, high: nat,
                     length: nat, kappa: int, n: nat, rest: nat, k: nat, m: nat)
    requires AcceptedFor(d, mk, e, low, w, high) && Accepted(low, w, high, Pow(2, -e), length, kappa, n, rest, k) && k <= n
    requires IntervalOf(d).ContainsDecimal(m, kappa - mk) && m != n - k
    ensures Abs(Off(IntervalOf(d), n - k, kappa - mk)) < Abs(Off(IntervalOf(d), m, kappa - mk))
  {
    hide Compare, InUnits, ScaledUnits, Boundary, Units, IntervalOf, Accepted, Pow, Off, Ten;
    hide TenR, Two, OffUnit;
    var p, v := kappa - mk, 2 * Units(d);
    WithinUnits(d, mk, e, low, w, high, m, p);
    AcceptedIsClosest(low, w, high, e, length, kappa, n, rest, k, m, ScaledUnits(v, mk, e));
    BetweenBoundaries(d, n - k, p);
    BetweenBoundaries(d, m, p);
    CloserInOffsets(n - k, m, p, v, mk, e);
  }

  lemma CloserInOffsets(n: nat, m: nat, p: int, v: nat, mk: int, e: int)
    requires AbsR(InUnits(n, p + mk, e) - ScaledUnits(v, mk, e)) < AbsR(InUnits(m, p + mk, e) - ScaledUnits(v, mk, e))
    ensures Abs(Compare(n, p, v)) < Abs(Compare(m, p, v))
  {
    hide Compare, InUnits, ScaledUnits, Ten, TenR, Two, OffUnit;
    OffAtScale(n, p, v, mk, e);
    OffAtScale(m, p, v, mk, e);
    var s := ScaledUnits(v, mk, e);
    CompareAbs(Compare(n, p, v), Compare(m, p, v), InUnits(n, p + mk, e) - s, InUnits(m, p + mk, e) - s, TenR(mk) * Two(-e), OffUnit(p));
  }

  /** The unit of Compare. */
  ghost function OffUnit(p: int): real {
    (Ten(-p) as real) * (Pow(2, 1075) as real)
  }

  /** Compare, and the distance at the scale of digit generation, differ by a factor that does not depend on m. */
  lemma OffAtScale(m: nat, p: int, k: nat, mk: int, e: int)
    ensures TenR(mk) * Two(-e) > 0.0 && OffUnit(p) > 0.0
    ensures (Compare(m, p, k) as real) * (TenR(mk) * Two(-e)) == (InUnits(m, p + mk, e) - ScaledUnits(k, mk, e)) * OffUnit(p)
  {
    hide TenR, Two, Pow, Ten, Exact, InUnits, ScaledUnits, Compare;
    CompareScaled2(m, p, k, mk, e);
    CompareAsReal(m, p, k);
    PositiveProduct(Ten(-p) as real, Pow(2, 1075) as real);
    var x, f, g := Exact(m, p) - (k as real) * Two(-1075), TenR(mk) * Two(-e), OffUnit(p);
    assert (x * g) * f == (x * f) * g;
  }

  lemma CompareAsReal(m: nat, p: int, k: nat)
    ensures Compare(m, p, k) as real == (Exact(m, p) - (k as real) * Two(-1075)) * OffUnit(p)
  {
    hide TenR, Two, Pow, Ten;
    var n := 1075;
    var x, y, b := Ten(p), Ten(-p), Pow(2, n);
    TenRatio(p);
    TwoIsPow(n);
    TwoAdd(-n, n);
    TwoZero();
    CastProduct(m, x);
    CastProduct(m * x, b);
    CastProduct(k, y);
    RealSides(m as real, TenR(p), x as real, y as real, b as real, k as real, Two(-n));
    DistributeR(Exact(m, p), (k as real) * Two(-n), (y as real) * (b as real));
  }

  lemma CompareAbs(a: int, b: int, x: real, y: real, f: real, g: real)
    requires f > 0.0 && g > 0.0 && (a as real) * f == x * g && (b as real) * f == y * g
    requires AbsR(x) < AbsR(y)
    ensures Abs(a) < Abs(b)
  {
    var u, v := x * g, y * g;
    AbsScale(x, g, u);
    AbsScale(y, g, v);
    AbsScale(a as real, f, u);
    AbsScale(b as real, f, v);
    ChainR(AbsR(a as real), AbsR(b as real), AbsR(x), AbsR(y), f, g);
  }

  lemma ChainR(p: real, q: real, r: real, s: real, f: real, g: real)
    requires f > 0.0 && g > 0.0 && p * f == r * g && q * f == s * g && r < s
    ensures p < q
  {
    StrictR(r, s, g);
    CancelR(p, q, f);
  }

  /** The power of ten above the digits lies above the upper boundary, the one at the first digit below. */
  lemma GrisuPlace(d: Double, mk: int, e: int, low: nat, w: nat, high: nat,
                   length: nat, kappa: int, n: nat, rest: nat, k: nat)
    requires AcceptedFor(d, mk, e, low, w, high) && Accepted(low, w, high, Pow(2, -e), length, kappa, n, rest, k) && k <= n
    requires n - k >= Pow(10, length - 1) && length > 0
    ensures UpperOff(IntervalOf(d), 1, kappa - mk + length - 1) < 0 < UpperOff(IntervalOf(d), 1, kappa - mk + length)
  {
    hide Compare, InUnits, ScaledUnits, Boundary, Units, IntervalOf, Accepted, Pow, Ten;
    var p, b := kappa - mk, Boundary(d);
    AcceptedIsInside(low, w, high, e, length, kappa, n, rest, k,
                     ScaledUnits(Boundary(d - 1), mk, e), ScaledUnits(b, mk, e));
    SideAtScale(n - k, p, b, mk, e);
    Cutting.ShiftDecimal(1, length - 1, p, b);
    Cutting.ShiftDecimal(1, length, p, b);
    if Pow(10, length - 1) < n - k {
      Cutting.CompareGrows(Pow(10, length - 1), n - k, p, b);
    }
    AboveAll(low, w, high, e, length, kappa, n, rest, k);
    SideAtScale(Pow(10, length), p, b, mk, e);
    BetweenBoundaries(d, 1, p + length - 1);
    BetweenBoundaries(d, 1, p + length);
  }

  lemma AboveAll(low: nat, w: nat, high: nat, e: int, length: nat, kappa: int, n: nat, rest: nat, k: nat)
    requires e <= 0 && Accepted(low, w, high, Pow(2, -e), length, kappa, n, rest, k)
    ensures InUnits(Pow(10, length), kappa, e) >= high as real + 1.0
  {
    hide InUnits, Pow, Ten, Settled;
    var t, unit, x := Ten(kappa) * Pow(2, -e), Ten(-kappa), Pow(10, length);
    UnitsAreInts(x, kappa, e);
    MulMonotone(n + 1, x, t);
    assert (n + 1) * t == n * t + t;
    PowPositive10(length);
    AtLeast(InUnits(x, kappa, e), high + 1, x * t, unit);
  }

  lemma AtLeast(x: real, a: nat, k: nat, unit: nat)
    requires unit > 0 && x * (unit as real) == k as real && k >= a * unit
    ensures x >= a as real
  {
    CastProduct(a, unit);
    if x < a as real {
      StrictR(x, a as real, unit as real);
    }
  }

  /** Accepted digits are the shortest decimal of the double, and the only closest one. */
  lemma GrisuIsShortest(d: Double, mk: int, e: int, low: nat, w: nat, high: nat,
                        length: nat, kappa: int, n: nat, rest: nat, k: nat)
    requires AcceptedFor(d, mk, e, low, w, high) && Accepted(low, w, high, Pow(2, -e), length, kappa, n, rest, k) && k <= n
    requires high + 1 < (high - low + 2) * Pow(10, 16)
    ensures FastShortest(d, n - k, length, kappa - mk) && length <= 17
  {
    hide Pow, Accepted, AcceptedFor, Off, UpperOff, IntervalOf;
    WasAccepted(d, mk, e, low, w, high);
    PositivePower(-e);
    AcceptedDigits(low, w, high, Pow(2, -e), length, kappa, n, rest, k);
    WasGenerated(low, w, high, Pow(2, -e), length, kappa, n, rest, k);
    GrisuContains(d, mk, e, low, w, high, length, kappa, n, rest, k);
    GrisuPlace(d, mk, e, low, w, high, length, kappa, n, rest, k);
    var t, p := IntervalOf(d), kappa - mk;
    forall m: nat, q: int | m < Pow(10, length - 1)
      ensures !t.ContainsDecimal(m, q)
    {
      GrisuNothingShorter(d, mk, e, low, w, high, length, kappa, n, rest, k, m, q);
    }
    forall m: nat | t.ContainsDecimal(m, p)
      ensures AtLeastAsClose(t, n - k, m, p)
      ensures m != n - k ==> Abs(Off(t, n - k, p)) < Abs(Off(t, m, p))
    {
      if m != n - k {
        GrisuClosest(d, mk, e, low, w, high, length, kappa, n, rest, k, m);
      }
    }
  }

  /** Where the normalized number, its boundaries and their common exponent come from. */
  function Scaled64(f: nat, c: CachedPower): nat {
    Rounded(f * c.f)
  }

  lemma ScaleMinus(f: nat, x: int, closer: bool, we: int, minus: nat, c: CachedPower, k: nat)
    requires f >= 1 && we <= x - 2 && x >= (if closer then -1073 else -1074) && minus < WORD && PowerFor(c, we)
    requires closer ==> k == (4 * f - 1) * Pow(2, x - 2 + 1075) && minus == (4 * f - 1) * Pow(2, x - 2 - we)
    requires !closer ==> k == (2 * f - 1) * Pow(2, x - 1 + 1075) && minus == (2 * f - 1) * Pow(2, x - 1 - we)
    ensures var g := Scaled64(minus, c);
            g as real - 1.0 < ScaledUnits(k, c.decimalExponent, we + c.e + 64) < g as real + 1.0
  {
    hide *;
    if closer {
      ScaleOne(4 * f - 1, x - 2, we, minus, c, k);
    } else {
      ScaleOne(2 * f - 1, x - 1, we, minus, c, k);
    }
  }

  /** The boundaries of d by its significand and exponent. */
  lemma PartsOf(d: Double)
    requires 0 < d < INFINITY
    ensures var f, x, closer := Significand(d), Exponent(d), LowerBoundaryIsCloser(d);
            && f >= 1 && x >= -1074 && (closer ==> x >= -1073)
            && Boundary(d) == (2 * f + 1) * Pow(2, x - 1 + 1075) && 2 * Units(d) == f * Pow(2, x + 1075)
            && (closer ==> Boundary(d - 1) == (4 * f - 1) * Pow(2, x - 2 + 1075))
            && (!closer ==> Boundary(d - 1) == (2 * f - 1) * Pow(2, x - 1 + 1075))
  {
    hide Boundary, Units, Pow;
    LowerBoundary(d);
    UpperBoundary(d);
    TwiceUnits(d);
  }

  lemma MakeAccepted(d: Double, mk: int, e: int, low: nat, w: nat, high: nat)
    requires 0 < d < INFINITY && e <= 0 && 1 < low
    requires low as real - 1.0 < ScaledUnits(Boundary(d - 1), mk, e) < low as real + 1.0
    requires w as real - 1.0 < ScaledUnits(2 * Units(d), mk, e) < w as real + 1.0
    requires high as real - 1.0 < ScaledUnits(Boundary(d), mk, e) < high as real + 1.0
    ensures AcceptedFor(d, mk, e, low, w, high)
  {
  }

  lemma TwiceUnits(d: Double)
    ensures 2 * Units(d) == Significand(d) * Pow(2, Exponent(d) + 1075)
  {
    hide Pow;
    Doubled(Exponent(d) + 1074);
    assert Significand(d) * (2 * Pow(2, Exponent(d) + 1074)) == 2 * (Significand(d) * Pow(2, Exponent(d) + 1074));
  }

  lemma ScaleOne(a: nat, x: int, we: int, f: nat, c: CachedPower, k: nat)
    requires we <= x && x + 1075 >= 0 && f == a * Pow(2, x - we) && f < WORD && k == a * Pow(2, x + 1075) && PowerFor(c, we)
    ensures var g := Scaled64(f, c);
            g as real - 1.0 < ScaledUnits(k, c.decimalExponent, we + c.e + 64) < g as real + 1.0
  {
    hide Pow, Two, TenR, Rounded, PowerFor;
    var v := (a as real) * Two(x);
    ValueOf(a, x);
    ShiftedIsExact(a, x, we, f, v);
    ScaledIsClose(v, f, we, c, v * TenR(c.decimalExponent));
  }

  /** Shortest digits for a double, or a refusal. */
  method Grisu3(d: Double, powers: int -> CachedPower, buffer: array<char>) returns (ok: bool, length: nat, decimalExponent: int)
    requires 0 < d < INFINITY && buffer.Length >= 17
    requires forall e: int :: -1140 <= e <= 1000 ==> PowerFor(powers(e), e)
    modifies buffer
    ensures ok ==>
              && 0 < length <= 17 && length <= buffer.Length && AllDigits(buffer[..length])
              && FastShortest(d, DecimalValue(buffer[..length]), length, decimalExponent)
  {
    hide Pow, Accepted, AcceptedFor, PowerFor, FastShortest, Rounded, DecimalValue, ScaledUnits, Boundary, Units;
    var w := AsNormalizedDiyFp(d);
    var boundaryMinus, boundaryPlus := NormalizedBoundaries(d);
    ghost var f, x := Significand(d), Exponent(d);
    SameExponent(f, x - w.e, x - 1 - boundaryPlus.e, w.f, boundaryPlus.f);
    EnoughShift2(f, x - 1 - w.e, boundaryPlus.f);
    ShiftAtMost(f, x - w.e);
    var c := powers(w.e);
    assert PowerFor(c, w.e);
    PowerRange(c, w.e);
    ReadyForDigits(f, x - 1 - w.e, LowerBoundaryIsCloser(d), boundaryMinus.f, w.f, boundaryPlus.f, c.f);
    var tenMk := new DiyFp(c.f, c.e);
    var scaledW := Times(w, tenMk);
    var scaledBoundaryMinus := Times(boundaryMinus, tenMk);
    var scaledBoundaryPlus := Times(boundaryPlus, tenMk);
    PartsOf(d);
    ScaleMinus(f, x, LowerBoundaryIsCloser(d), w.e, boundaryMinus.f, c, Boundary(d - 1));
    ScaleOne(f, x, w.e, w.f, c, 2 * Units(d));
    ScaleOne(2 * f + 1, x - 1, w.e, boundaryPlus.f, c, Boundary(d));
    MakeAccepted(d, c.decimalExponent, scaledW.e, scaledBoundaryMinus.f, scaledW.f, scaledBoundaryPlus.f);
    Digits17(scaledBoundaryMinus.f, scaledBoundaryPlus.f, buffer.Length);
    var kappa;
    ghost var n, rest, k;
    ok, length, kappa, n, rest, k := DigitGen(scaledBoundaryMinus, scaledW, scaledBoundaryPlus, buffer);
    decimalExponent := -c.decimalExponent + kappa;
    if ok {
      FewerDecrements(scaledBoundaryMinus.f, scaledW.f, scaledBoundaryPlus.f, Pow(2, -scaledW.e), length, kappa, n, rest, k);
      GrisuIsShortest(d, c.decimalExponent, scaledW.e, scaledBoundaryMinus.f, scaledW.f, scaledBoundaryPlus.f,
                      length, kappa, n, rest, k);
    }
  }

  lemma FewerDecrements(low: nat, w: nat, high: nat, one: nat, length: nat, kappa: int, n: nat, rest: nat, k: nat)
    requires Accepted(low, w, high, one, length, kappa, n, rest, k)
    ensures k <= n
  {
  }

  lemma PowerRange(c: CachedPower, e: int)
    requires PowerFor(c, e)
    ensures MSB <= c.f < WORD && MINIMAL_TARGET_EXPONENT <= e + c.e + 64 <= MAXIMAL_TARGET_EXPONENT
  {
  }

  lemma ShiftAtMost(f: nat, s: nat)
    requires f > 0 && f * Pow(2, s) < WORD
    ensures s < 64
  {
    hide Pow;
    Sixty();
    MulMonotone(1, f, Pow(2, s));
    if s >= 64 {
      PowMonotone(2, 64, s);
    }
  }

  lemma Digits17(low: nat, high: nat, size: nat)
    requires low <= high && high + 1 < (high - low + 2) * Pow(10, 16) && size >= 17
    ensures high + 1 < (high - low + 2) * Pow(10, size - 1)
  {
    hide Pow;
    PowMonotone(10, 16, size - 1);
    MulMonotone(Pow(10, 16), Pow(10, size - 1), high - low + 2);
  }
}
