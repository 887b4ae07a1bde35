/** What accepted digits promise: they lie between the true boundaries, nothing shorter does, and nothing
    of the same length is closer to the true number. */
module Weeding {
  import opened Arithmetic
  import opened Deciding
  import opened DiyFps
  import opened FastDtoas
  import opened Intervals
  import opened Reals
  import opened Shortest
  import DiyFpStrtods

  /** A decimal in units of 2^e, the unit in the last place of the numbers digits are generated from. */
  ghost function InUnits(m: nat, p: int, e: int): real {
    Exact(m, p) * Two(-e)
  }

  lemma UnitsAreInts(m: nat, p: int, e: int)
    requires e <= 0
    ensures InUnits(m, p, e) * (Ten(-p) as real) == (m * (Ten(p) * Pow(2, -e))) as real
  {
    hide Ten, TenR, Two, Pow;
    TenRatio(p);
    TwoIsPow(-e);
    CastProduct(Ten(p), Pow(2, -e));
    CastProduct(m, Ten(p) * Pow(2, -e));
    ThreeReals(m as real, TenR(p), Two(-e), Ten(-p) as real);
  }

  lemma ThreeReals(a: real, b: real, c: real, d: real)
    ensures ((a * b) * c) * d == a * ((b * d) * c)
  {
    assert ((a * b) * c) * d == (a * b) * (c * d);
    assert (a * b) * (c * d) == a * (b * (c * d));
    assert b * (c * d) == (b * d) * c;
  }

  /** The distance of a candidate from too_high. */
  lemma CandidateDistance(total: nat, one: nat, n: nat, kappa: int, rest: nat, m: nat)
    requires Generated(total, one, n, kappa, rest) && m <= n
    ensures m * (Ten(kappa) * one) == total * Ten(-kappa) - Lowered(rest, Ten(kappa) * one, n - m)
  {
    Distribute(n, m, Ten(kappa) * one);
  }

  lemma DistanceAt(total: nat, one: nat, n: nat, kappa: int, rest: nat, m: nat, i: nat, t: nat, unit: nat)
    requires Generated(total, one, n, kappa, rest) && m + i == n && t == Ten(kappa) * one && unit == Ten(-kappa)
    ensures m * t == total * unit - Lowered(rest, t, i)
  {
    CandidateDistance(total, one, n, kappa, rest, m);
  }

  /** The accepted digits lie strictly between every low and high that the given ones may stand for. */
  lemma AcceptedIsInside(low: nat, w: nat, high: nat, e: int, length: nat, kappa: int, n: nat, rest: nat, d: nat,
                         lowT: real, highT: real)
    requires e <= 0 && Accepted(low, w, high, Pow(2, -e), length, kappa, n, rest, d)
    requires lowT < low as real + 1.0 && high as real - 1.0 < highT
    ensures lowT < InUnits(n - d, kappa, e) < highT
  {
    hide Ten, Pow, Lowered, InUnits;
    var one, unit := Pow(2, -e), Ten(-kappa);
    AcceptedIsSafe(low, w, high, one, length, kappa, n, rest, d);
    UnitsAreInts(n - d, kappa, e);
    FromInts(InUnits(n - d, kappa, e), low + 3, high - 1, (n - d) * (Ten(kappa) * one), unit);
  }

  lemma FromInts(x: real, a: int, b: int, k: int, unit: nat)
    requires unit > 0 && x * (unit as real) == k as real && a * unit <= k <= b * unit
    ensures a as real <= x <= b as real
  {
    CastProduct(a, unit);
    CastProduct(b, unit);
    Divided(x, a as real, b as real, unit as real);
  }

  /** The same in integers: two units inside the given boundaries. */
  lemma AcceptedIsSafe(low: nat, w: nat, high: nat, one: nat, length: nat, kappa: int, n: nat, rest: nat, d: nat)
    requires Accepted(low, w, high, one, length, kappa, n, rest, d)
    ensures high >= 1 && (low + 3) * Ten(-kappa) <= (n - d) * (Ten(kappa) * one) <= (high - 1) * Ten(-kappa)
  {
    hide Ten, Pow, Lowered, Settled;
    var unit := Ten(-kappa);
    CandidateDistance(high + 1, one, n, kappa, rest, n - d);
    SafeAlgebra(low, high, unit, Lowered(rest, Ten(kappa) * one, d), (n - d) * (Ten(kappa) * one));
  }

  lemma SafeAlgebra(low: nat, high: nat, unit: nat, r: nat, x: int)
    requires low <= high && unit > 0 && x == (high + 1) * unit - r
    requires 2 * unit <= r <= (high - low + 2) * unit - 4 * unit
    ensures high >= 1 && (low + 3) * unit <= x <= (high - 1) * unit
  {
    assert (high - low + 2) * unit - 4 * unit == (high - low - 2) * unit;
    assert (high + 1) * unit - (high - low - 2) * unit == (low + 3) * unit;
    assert (high + 1) * unit - 2 * unit == (high - 1) * unit;
    if high == 0 {
      MulMonotone(high - low - 2, -2, unit);
    }
  }

  lemma Divided(x: real, a: real, b: real, u: real)
    requires u > 0.0 && a * u <= x * u <= b * u
    ensures a <= x <= b
  {
    CancelR(x, a, u);
    CancelR(b, x, u);
  }

  /** Multiples of the next power of ten are out of reach: the largest one below too_high is too low already. */
  lemma MultiplesAreTooLow(low: nat, w: nat, high: nat, one: nat, length: nat, kappa: int, n: nat, rest: nat, d: nat, k: nat)
    requires Accepted(low, w, high, one, length, kappa, n, rest, d) && length > 1 && low > 0
    requires k * (10 * (Ten(kappa) * one)) <= (high + 1) * Ten(-kappa)
    ensures k * (10 * (Ten(kappa) * one)) <= (low - 1) * Ten(-kappa)
  {
    hide Ten, Pow, Settled, Reach;
    var t, unit := Ten(kappa) * one, Ten(-kappa);
    var n1, d0 := n / 10, n % 10;
    assert n == 10 * n1 + d0;
    LargestMultiple(k, n1, d0, t, rest, (high + 1) * unit);
    WidthOf(low, high, unit);
  }

  lemma LargestMultiple(k: nat, n1: nat, d0: nat, t: nat, rest: nat, total: nat)
    requires total == (10 * n1 + d0) * t + rest && rest < t && d0 <= 9 && k * (10 * t) <= total
    ensures k * (10 * t) <= total - (rest + d0 * t)
  {
    assert (10 * n1 + d0) * t == n1 * (10 * t) + d0 * t;
    MulMonotone(d0, 9, t);
    assert (n1 + 1) * (10 * t) == n1 * (10 * t) + 10 * t;
    MulCancel(k, n1 + 1, 10 * t);
    MulMonotone(k, n1, 10 * t);
  }

  /** No decimal with fewer digits lies between too_low and too_high. */
  lemma NothingShorter(low: nat, w: nat, high: nat, one: nat, length: nat, kappa: int, n: nat, rest: nat, d: nat, m: nat, p: int)
    requires Accepted(low, w, high, one, length, kappa, n, rest, d) && low > 0 && one > 0
    requires m < Pow(10, length - 1)
    ensures (m * Ten(p)) * one <= (low - 1) * Ten(-p) || (m * Ten(p)) * one >= (high + 1) * Ten(-p)
  {
    hide Ten, Pow, Lowered, Settled, Generated, Accepted;
    WasGenerated(low, w, high, one, length, kappa, n, rest, d);
    if length == 1 {
      Zero();
      assert (0 * Ten(p)) * one == 0;
    } else if p > kappa {
      MultiplesOutside(low, w, high, one, length, kappa, n, rest, d, m, p);
    } else {
      var k, t := Pow(10, length - 2), Ten(kappa) * one;
      TenMore(length - 2);
      assert k * (10 * t) == Pow(10, length - 1) * t;
      MulMonotone(Pow(10, length - 1), n, t);
      MultiplesAreTooLow(low, w, high, one, length, kappa, n, rest, d, k);
      MulMonotone(m, Pow(10, length - 1), t);
      SmallDecimals(low, one, kappa, m, p, t);
    }
  }

  lemma MultiplesOutside(low: nat, w: nat, high: nat, one: nat, length: nat, kappa: int, n: nat, rest: nat, d: nat, m: nat, p: int)
    requires Accepted(low, w, high, one, length, kappa, n, rest, d) && low > 0 && one > 0 && length > 1 && p > kappa
    ensures (m * Ten(p)) * one <= (low - 1) * Ten(-p) || (m * Ten(p)) * one >= (high + 1) * Ten(-p)
  {
    hide Ten, Pow, Lowered, Settled, Generated, Accepted;
    var k := m * Pow(10, p - kappa - 1);
    HigherPlace(m, p, kappa, one);
    var x, y := k * (10 * (Ten(kappa) * one)), (m * Ten(p)) * one;
    if x <= (high + 1) * Ten(-kappa) {
      MultiplesAreTooLow(low, w, high, one, length, kappa, n, rest, d, k);
      ScaleDown(y, Ten(-kappa), x, Ten(-p), low - 1);
    } else {
      ScaleUp(y, Ten(-kappa), x, Ten(-p), high + 1);
    }
  }

  lemma SmallDecimals(low: nat, one: nat, kappa: int, m: nat, p: int, t: nat)
    requires low > 0 && p <= kappa && t == Ten(kappa) * one && m * t <= (low - 1) * Ten(-kappa)
    ensures (m * Ten(p)) * one <= (low - 1) * Ten(-p)
  {
    hide Ten, Pow;
    LowerPlace(m, p, kappa, one);
    var y := (m * Ten(p)) * one;
    DiyFpStrtods.PowPositive10(kappa - p);
    MulMonotone(1, Pow(10, kappa - p), y * Ten(-kappa));
    ScaleDown2(y, Ten(-kappa), m * t, Ten(-p), low - 1, Pow(10, kappa - p));
  }

  lemma WasGenerated(low: nat, w: nat, high: nat, one: nat, length: nat, kappa: int, n: nat, rest: nat, d: nat)
    requires Accepted(low, w, high, one, length, kappa, n, rest, d)
    ensures low <= w <= high && length > 0 && n >= Pow(10, length - 1) && d <= n
    ensures n * (Ten(kappa) * one) <= (high + 1) * Ten(-kappa)
  {
  }

  /** A decimal whose last place is above kappa is a multiple of the power of ten above kappa. */
  lemma HigherPlace(m: nat, p: int, kappa: int, one: nat)
    requires p > kappa
    ensures ((m * Ten(p)) * one) * Ten(-kappa) == ((m * Pow(10, p - kappa - 1)) * (10 * (Ten(kappa) * one))) * Ten(-p)
  {
    hide Pow;
    var j: nat := p - kappa - 1;
    TenMore(j);
    SplitTen(p, kappa, j + 1);
    Shuffle6(m, Ten(p), one, Ten(-kappa), Pow(10, j), Ten(kappa), Ten(-p));
  }

  lemma SplitTen(p: int, kappa: int, j: nat)
    requires p == kappa + j
    ensures Ten(p) * Ten(-kappa) == Pow(10, j) * (Ten(kappa) * Ten(-p))
  {
    hide Pow;
    Zero();
    PowAdd(10, Max(p, 0), Max(-kappa, 0));
    PowAdd(10, Max(kappa, 0), Max(-p, 0));
    PowAdd(10, j, Max(kappa, 0) + Max(-p, 0));
    assert Max(p, 0) + Max(-kappa, 0) == j + (Max(kappa, 0) + Max(-p, 0));
  }

  lemma Shuffle6(m: int, a: int, one: int, b: int, j: int, c: int, d: int)
    requires a * b == (10 * j) * (c * d)
    ensures ((m * a) * one) * b == ((m * j) * (10 * (c * one))) * d
  {
    assert ((m * a) * one) * b == (m * one) * (a * b);
    assert (m * one) * ((10 * j) * (c * d)) == ((m * j) * (10 * (c * one))) * d by {
      assert (m * one) * ((10 * j) * (c * d)) == ((m * one) * (10 * j)) * (c * d);
      assert ((m * one) * (10 * j)) * (c * d) == (((m * one) * (10 * j)) * c) * d;
      assert ((m * one) * (10 * j)) * c == (m * j) * (10 * (c * one)) by {
        assert (m * one) * (10 * j) == 10 * ((m * j) * one);
        assert (m * j) * (10 * (c * one)) == 10 * ((m * j) * (c * one));
        assert ((m * j) * one) * c == (m * j) * (c * one);
      }
    }
  }

  lemma LowerPlace(m: nat, p: int, kappa: int, one: nat)
    requires p <= kappa
    ensures (((m * Ten(p)) * one) * Ten(-kappa)) * Pow(10, kappa - p) == (m * (Ten(kappa) * one)) * Ten(-p)
  {
    hide Pow;
    SplitTen(kappa, p, kappa - p);
    LowerAlgebra(m, one, Ten(p), Ten(-kappa), Ten(kappa), Ten(-p), Pow(10, kappa - p));
  }

  lemma LowerAlgebra(m: int, one: int, a: int, b: int, c: int, d: int, j: int)
    requires c * d == j * (a * b)
    ensures (((m * a) * one) * b) * j == (m * (c * one)) * d
  {
    var x, y, z := m * one, a * b, c * d;
    assert ((m * a) * one) * b == x * y;
    assert (x * y) * j == x * (j * y);
    assert (m * (c * one)) * d == x * z;
  }

  lemma ScaleDown(y: nat, u: nat, x: nat, v: nat, low: nat)
    requires u > 0 && y * u == x * v && x <= low * u
    ensures y <= low * v
  {
    MulMonotone(x, low * u, v);
    assert (low * u) * v == (low * v) * u;
    MulCancel(y, low * v, u);
  }

  lemma ScaleDown2(y: nat, u: nat, x: nat, v: nat, low: nat, j: nat)
    requires u > 0 && j >= 1 && (y * u) * j == x * v && x <= low * u && y * u <= (y * u) * j
    ensures y <= low * v
  {
    MulMonotone(x, low * u, v);
    assert (low * u) * v == (low * v) * u;
    MulCancel(y, low * v, u);
  }

  lemma ScaleUp(y: nat, u: nat, x: nat, v: nat, high: nat)
    requires u > 0 && y * u == x * v && x >= high * u
    ensures y >= high * v
  {
    MulMonotone(high * u, x, v);
    assert (high * u) * v == (high * v) * u;
    MulCancel(high * v, y, u);
  }

  /** No other decimal with the same last place is as close to any number w may stand for. */
  lemma AcceptedIsClosest(low: nat, w: nat, high: nat, e: int, length: nat, kappa: int, n: nat, rest: nat, d: nat,
                          m: nat, wT: real)
    requires e <= 0 && low > 0 && Accepted(low, w, high, Pow(2, -e), length, kappa, n, rest, d)
    requires w as real - 1.0 < wT < w as real + 1.0 && m != n - d
    requires low as real - 1.0 <= InUnits(m, kappa, e) <= high as real + 1.0
    ensures AbsR(InUnits(n - d, kappa, e) - wT) < AbsR(InUnits(m, kappa, e) - wT)
  {
    hide *;
    var one, unit, t := Scales(kappa, e);
    IsSettled(low, w, high, one, length, kappa, n, rest, d);
    var i := InWindow(low, high, e, kappa, n, rest, m);
    var all: int := (high + 1) * unit;
    var xt := CandidateAt(high + 1, e, n, kappa, rest, n - d, d, t, unit, all);
    var mt := CandidateAt(high + 1, e, n, kappa, rest, m, i, t, unit, all);
    Closest(low, w, high, unit, rest, t, d, i, xt, mt, InUnits(n - d, kappa, e), InUnits(m, kappa, e), wT, all);
  }

  lemma Scales(kappa: int, e: int) returns (one: nat, unit: nat, t: nat)
    requires e <= 0
    ensures one == Pow(2, -e) && unit == Ten(-kappa) > 0 && t == Ten(kappa) * one
  {
    one, unit, t := Pow(2, -e), Ten(-kappa), Ten(kappa) * Pow(2, -e);
  }

  lemma InWindow(low: nat, high: nat, e: int, kappa: int, n: nat, rest: nat, m: nat) returns (i: nat)
    requires e <= 0 && 0 < low <= high && Generated(high + 1, Pow(2, -e), n, kappa, rest)
    requires low as real - 1.0 <= InUnits(m, kappa, e) <= high as real + 1.0
    ensures m + i == n && Ten(kappa) * Pow(2, -e) > 0
    ensures Lowered(rest, Ten(kappa) * Pow(2, -e), i) <= Reach(high - low + 2, Ten(-kappa))
  {
    hide Ten, Pow, Lowered, InUnits, Generated, Reach;
    var one, unit := Pow(2, -e), Ten(-kappa);
    var t := Ten(kappa) * one;
    UnitsAreInts(m, kappa, e);
    InRange(low, high, unit, m * t, InUnits(m, kappa, e));
    NotAbove(high + 1, one, n, kappa, rest, m);
    i := n - m;
    DistanceAt(high + 1, one, n, kappa, rest, m, i, t, unit);
    WidthOf(low, high, unit);
  }

  lemma CandidateAt(total: nat, e: int, n: nat, kappa: int, rest: nat, m: nat, i: nat, t: nat, unit: nat, all: int)
      returns (mt: int)
    requires all == total * unit
    requires e <= 0 && Generated(total, Pow(2, -e), n, kappa, rest) && m + i == n
    requires t == Ten(kappa) * Pow(2, -e) && unit == Ten(-kappa)
    ensures mt == all - Lowered(rest, t, i) && InUnits(m, kappa, e) * (unit as real) == mt as real
  {
    hide Ten, Pow, Lowered, InUnits, Generated;
    UnitsAreInts(m, kappa, e);
    DistanceAt(total, Pow(2, -e), n, kappa, rest, m, i, t, unit);
    mt := m * t;
  }

  /** The distances in scaled integers decide. */
  lemma Closest(low: nat, w: nat, high: nat, unit: nat, rest: nat, t: nat, d: nat, i: nat, xt: int, mt: int,
                x: real, y: real, wT: real, all: int)
    requires all == (high + 1) * unit
    requires low <= w <= high && unit > 0 && t > 0 && i != d && w as real - 1.0 < wT < w as real + 1.0
    requires Settled(rest, t, Reach(high - low + 2, unit), Reach(high - w, unit), Reach(high - w + 2, unit), d)
    requires xt == all - Lowered(rest, t, d) && mt == all - Lowered(rest, t, i)
    requires x * (unit as real) == xt as real && y * (unit as real) == mt as real
    requires Lowered(rest, t, i) <= Reach(high - low + 2, unit)
    ensures AbsR(x - wT) < AbsR(y - wT)
  {
    hide *;
    var total, u := (high + 1) as real, unit as real;
    var omega := OmegaCloser(low, w, high, unit, rest, t, d, i, total, wT);
    TotalAsReal(high + 1, unit, xt, mt, Lowered(rest, t, d), Lowered(rest, t, i), all);
    Distances(Lowered(rest, t, d) as real, Lowered(rest, t, i) as real, x, y, total, wT, u, omega);
  }

  lemma OmegaCloser(low: nat, w: nat, high: nat, unit: nat, rest: nat, t: nat, d: nat, i: nat, total: real, wT: real)
      returns (omega: real)
    requires low <= w <= high && unit > 0 && t > 0 && i != d && w as real - 1.0 < wT < w as real + 1.0
    requires Settled(rest, t, Reach(high - low + 2, unit), Reach(high - w, unit), Reach(high - w + 2, unit), d)
    requires Lowered(rest, t, i) <= Reach(high - low + 2, unit) && total == (high + 1) as real
    ensures omega == (total - wT) * (unit as real)
    ensures AbsR(Lowered(rest, t, d) as real - omega) < AbsR(Lowered(rest, t, i) as real - omega)
  {
    hide Lowered, Settled, Reach;
    omega := (total - wT) * (unit as real);
    OmegaBounds(high - w, high - w + 2, unit, total - wT, omega);
    SettledIsClosest(rest, t, Reach(high - low + 2, unit), Reach(high - w, unit), Reach(high - w + 2, unit), d, i, omega);
  }

  lemma TotalAsReal(total: nat, unit: nat, xt: int, mt: int, l: nat, l': nat, all: int)
    requires all == total * unit && xt == all - l && mt == all - l'
    ensures xt as real == (total as real) * (unit as real) - l as real
    ensures mt as real == (total as real) * (unit as real) - l' as real
  {
    CastProduct(total, unit);
  }

  lemma WidthOf(low: nat, high: nat, unit: nat)
    requires low > 0
    ensures low <= high ==> (high + 1) * unit - Reach(high - low + 2, unit) == (low - 1) * unit
    ensures low <= high ==> Reach(high - low + 2, unit) == (high - low + 2) * unit
  {
  }

  lemma IsSettled(low: nat, w: nat, high: nat, one: nat, length: nat, kappa: int, n: nat, rest: nat, d: nat)
    requires Accepted(low, w, high, one, length, kappa, n, rest, d)
    ensures low <= w <= high && Generated(high + 1, one, n, kappa, rest) && d <= n
    ensures var unit := Ten(-kappa);
            Settled(rest, Ten(kappa) * one, Reach(high - low + 2, unit), Reach(high - w, unit), Reach(high - w + 2, unit), d)
  {
  }

  lemma InRange(low: nat, high: nat, unit: nat, mt: nat, x: real)
    requires low > 0 && unit > 0 && x * (unit as real) == mt as real && low as real - 1.0 <= x <= high as real + 1.0
    ensures (low - 1) * unit <= mt <= (high + 1) * unit
  {
    CastProduct(low - 1, unit);
    CastProduct(high + 1, unit);
    MonotoneR((low - 1) as real, x, unit as real);
    MonotoneR(x, (high + 1) as real, unit as real);
  }

  lemma NotAbove(total: nat, one: nat, n: nat, kappa: int, rest: nat, m: nat)
    requires Generated(total, one, n, kappa, rest) && m * (Ten(kappa) * one) <= total * Ten(-kappa)
    ensures m <= n && Ten(kappa) * one > 0
  {
    var t := Ten(kappa) * one;
    assert (n + 1) * t == n * t + t;
    MulCancel(m, n + 1, t);
  }

  lemma OmegaBounds(a: nat, b: nat, unit: nat, x: real, y: real)
    requires unit > 0 && a as real < x < b as real && y == x * (unit as real)
    ensures Reach(a, unit) as real < y < Reach(b, unit) as real
  {
    CastProduct(a, unit);
    CastProduct(b, unit);
    StrictR(a as real, x, unit as real);
    StrictR(x, b as real, unit as real);
  }

  lemma Distances(l: real, l': real, x: real, x': real, total: real, w: real, u: real, omega: real)
    requires u > 0.0 && x * u == total * u - l && x' * u == total * u - l' && omega == (total - w) * u
    requires AbsR(l - omega) < AbsR(l' - omega)
    ensures AbsR(x - w) < AbsR(x' - w)
  {
    AbsScale(x - w, u, omega - l);
    AbsScale(x' - w, u, omega - l');
    Compared(AbsR(x - w), AbsR(x' - w), AbsR(omega - l), AbsR(omega - l'), u);
  }

  lemma Compared(a: real, b: real, c: real, d: real, u: real)
    requires u > 0.0 && c == a * u && d == b * u && c < d
    ensures a < b
  {
    CancelR(a, b, u);
  }

  lemma AbsScale(y: real, u: real, z: real)
    requires u > 0.0 && z == y * u
    ensures AbsR(z) == AbsR(y) * u
  {
    if y >= 0.0 {
      MonotoneR(0.0, y, u);
    } else {
      StrictR(y, 0.0, u);
      var x := -y;
      assert x * u == -z;
    }
  }
}
