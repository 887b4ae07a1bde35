/** From an approximation with a known error to the correctly rounded double. */
module Deciding {
  import opened Arithmetic
  import opened DiyFps
  import opened ErrorAnalysis
  import opened Ieee
  import opened Intervals
  import opened Reals
  import opened Shortest

  /** The number m * 10^p. */
  ghost function Exact(m: nat, p: int): real {
    (m as real) * TenR(p)
  }

  lemma TenRatio(p: int)
    ensures TenR(p) * (Ten(-p) as real) == Ten(p) as real
  {
    hide TenR, Pow;
    TenIsPow(Max(p, 0));
    TenIsPow(Max(-p, 0));
    TenZero();
    TenAdd(p, -p);
  }

  /** Compare is the real comparison. */
  lemma CompareIsReal(m: nat, p: int, k: nat)
    ensures Compare(m, p, k) < 0 <==> Exact(m, p) < (k as real) * Two(-1075)
    ensures Compare(m, p, k) == 0 <==> Exact(m, p) == (k as real) * Two(-1075)
  {
    hide TenR, Two, Pow, Ten;
    var n := 1075;
    var x, y, b := Ten(p), Ten(-p), Pow(2, n);
    TenRatio(p);
    TwoIsPow(n);
    TwoAdd(-n, n);
    TwoZero();
    CastProduct(m, x);
    CastProduct(m * x, b);
    CastProduct(k, y);
    RealSides(m as real, TenR(p), x as real, y as real, b as real, k as real, Two(-n));
    PositiveProduct(y as real, b as real);
    CancelR(Exact(m, p), (k as real) * Two(-n), (y as real) * (b as real));
  }

  lemma RealSides(m: real, t: real, x: real, y: real, b: real, k: real, h: real)
    requires t * y == x && h * b == 1.0
    ensures (m * t) * (y * b) == (m * x) * b
    ensures (k * h) * (y * b) == k * y
  {
    assert (m * t) * (y * b) == (m * (t * y)) * b;
    assert (k * h) * (y * b) == (k * y) * (h * b);
  }

  /** A boundary of the form c * 2^(x - 1), with c odd, on the scale of Compare. */
  lemma BoundaryIsReal(c: nat, x: int)
    requires x + 1075 >= 0
    ensures ((c * Pow(2, x + 1075)) as real) * Two(-1075) == (c as real) * Two(x)
  {
    hide Two, Pow;
    CastProduct(c, Pow(2, x + 1075));
    TwoIsPow(x + 1075);
    TwoAdd(x + 1075, -1075);
    assert ((c as real) * Two(x + 1075)) * Two(-1075) == (c as real) * (Two(x + 1075) * Two(-1075));
  }

  /** The double with significand r and exponent x. */
  function Encoded(r: nat, x: int): (d: Double)
    requires r < 2 * HIDDEN_BIT && DENORMAL_EXPONENT <= x < MAX_EXPONENT && (r >= HIDDEN_BIT || x == DENORMAL_EXPONENT)
    ensures d < INFINITY && Significand(d) == r && Exponent(d) == x
  {
    var d := (x + 1074) * HIDDEN_BIT + r;
    if r < HIDDEN_BIT then
      assert d / HIDDEN_BIT == x + 1074 && d % HIDDEN_BIT == r;
      d
    else
      assert d / HIDDEN_BIT == x + 1075 && d % HIDDEN_BIT == r - HIDDEN_BIT;
      d
  }

  /** A number known to lie around r * 2^x rounds to that double or to the next one, depending on
      which side of the half-way point it is. */
  lemma SideDecides(m: nat, p: int, r: nat, x: int, d: Double)
    requires r < 2 * HIDDEN_BIT && DENORMAL_EXPONENT <= x < MAX_EXPONENT && (r >= HIDDEN_BIT || x == DENORMAL_EXPONENT)
    requires d == Encoded(r, x)
    requires (4.0 * (r as real) - 1.0) * Two(x - 2) < Exact(m, p) < (2.0 * (r as real) + 3.0) * Two(x - 1)
    ensures var middle := (2.0 * (r as real) + 1.0) * Two(x - 1);
            && (Exact(m, p) < middle ==> RoundsTo(d, m, p))
            && (Exact(m, p) > middle ==> RoundsTo(d + 1, m, p))
            && (Exact(m, p) == middle ==> RoundsTo(if d % 2 == 0 then d else d + 1, m, p))
  {
    hide Two, Pow, Compare, Exact, Boundary, Units, RoundsTo, Significand, Exponent;
    MiddleIs(m, p, r, x, d);
    if d > 0 {
      AboveLower(m, p, r, x, d);
    }
    if d + 1 < INFINITY {
      BelowNextUpper(m, p, r, x, d);
    }
    SideRounds(d, m, p);
  }

  /** The middle between d and its successor is d's upper boundary. */
  lemma MiddleIs(m: nat, p: int, r: nat, x: int, d: Double)
    requires r < 2 * HIDDEN_BIT && DENORMAL_EXPONENT <= x < MAX_EXPONENT && (r >= HIDDEN_BIT || x == DENORMAL_EXPONENT)
    requires d == Encoded(r, x)
    ensures d < INFINITY && Significand(d) == r && Exponent(d) == x
    ensures var middle := (2.0 * (r as real) + 1.0) * Two(x - 1);
            && (Exact(m, p) < middle <==> Compare(m, p, Boundary(d)) < 0)
            && (Exact(m, p) > middle <==> Compare(m, p, Boundary(d)) > 0)
  {
    hide Two, Pow, Compare, Exact, Boundary, Units;
    UpperBoundary(d);
    BoundaryIsReal(2 * r + 1, x - 1);
    CompareIsReal(m, p, Boundary(d));
  }

  /** A number between the boundaries below d and above its successor is rounded by its side of the one between. */
  lemma SideRounds(d: Double, m: nat, p: int)
    requires d < INFINITY
    requires d > 0 ==> Compare(m, p, Boundary(d - 1)) > 0
    requires d + 1 < INFINITY ==> Compare(m, p, Boundary(d + 1)) < 0
    ensures var side := Compare(m, p, Boundary(d));
            && (side < 0 ==> RoundsTo(d, m, p))
            && (side > 0 ==> RoundsTo(d + 1, m, p))
            && (side == 0 ==> RoundsTo(if d % 2 == 0 then d else d + 1, m, p))
  {
    hide Compare, Boundary;
  }

  lemma AboveLower(m: nat, p: int, r: nat, x: int, d: Double)
    requires 0 < d < INFINITY && Significand(d) == r && Exponent(d) == x
    requires (4.0 * (r as real) - 1.0) * Two(x - 2) < Exact(m, p)
    ensures Compare(m, p, Boundary(d - 1)) > 0
  {
    hide Two, Pow, Compare, Exact, Boundary, Units;
    LowerBoundary(d);
    CompareIsReal(m, p, Boundary(d - 1));
    assert r >= 1;
    if LowerBoundaryIsCloser(d) {
      BoundaryIsReal(4 * r - 1, x - 2);
    } else {
      BoundaryIsReal(2 * r - 1, x - 1);
      TwoNext(x - 2);
      assert (2.0 * (r as real) - 1.0) * (2.0 * Two(x - 2)) == (4.0 * (r as real) - 2.0) * Two(x - 2);
      StrictR(4.0 * (r as real) - 2.0, 4.0 * (r as real) - 1.0, Two(x - 2));
    }
  }

  lemma TwiceAndThree(r: int, u: int)
    ensures (2 * r + 3) * u == 2 * (r * u) + 3 * u
  {
  }

  lemma NextBoundary(d: Double)
    requires d + 1 < INFINITY
    ensures Boundary(d + 1) >= (2 * Significand(d) + 3) * Pow(2, Exponent(d) - 1 + 1075)
  {
    hide Pow, Significand, Exponent;
    Successor(d);
    Successor(d + 1);
    TwiceAndThree(Significand(d), Ulp(d));
  }

  lemma BelowNextUpper(m: nat, p: int, r: nat, x: int, d: Double)
    requires d + 1 < INFINITY && Significand(d) == r && Exponent(d) == x
    requires Exact(m, p) < (2.0 * (r as real) + 3.0) * Two(x - 1)
    ensures Compare(m, p, Boundary(d + 1)) < 0
  {
    hide Two, Pow, Compare, Exact, Boundary, Units;
    NextBoundary(d);
    var k := (2 * r + 3) * Pow(2, x - 1 + 1075);
    BoundaryIsReal(2 * r + 3, x - 1);
    CompareIsReal(m, p, k);
    CompareMonotone(m, p, k, Boundary(d + 1));
  }

  /** Past the largest exponent everything rounds to infinity. */
  lemma Overflows(m: nat, p: int, r: nat, x: int)
    requires r >= HIDDEN_BIT && x >= MAX_EXPONENT
    requires (4.0 * (r as real) - 1.0) * Two(x - 2) < Exact(m, p)
    ensures RoundsTo(INFINITY, m, p)
  {
    hide Two, Pow, Compare, Exact, Boundary, Units;
    var d := INFINITY - 1;
    var h := 2 * HIDDEN_BIT - 1;
    assert Significand(d) == h && Exponent(d) == 971;
    UpperBoundary(d);
    BoundaryIsReal(2 * h + 1, 970);
    CompareIsReal(m, p, Boundary(d));
    GrowingTwo(970, x - 2);
    assert 2 * h + 1 == 4 * HIDDEN_BIT - 1;
    MonotoneR(4.0 * (HIDDEN_BIT as real) - 1.0, 4.0 * (r as real) - 1.0, Two(x - 2));
    MonotoneR(Two(970), Two(x - 2), 4.0 * (HIDDEN_BIT as real) - 1.0);
  }

  lemma {:induction false} GrowingTwo(a: int, b: int)
    requires a <= b
    ensures Two(a) <= Two(b)
    decreases b - a
  {
    hide Two;
    if a < b {
      GrowingTwo(a, b - 1);
      TwoNext(b - 1);
    }
  }

  lemma SameUnits(d: Double, e: Double)
    requires Units(d) == Units(e)
    ensures d == e
  {
    hide Units;
    if d < e {
      Increasing(d, e);
    } else if e < d {
      Increasing(e, d);
    }
  }

  lemma ScaledCompare(v: real, e: int, c: real, j: nat)
    ensures v < c * Two(e + j) <==> v * Two(-e) < c * (Pow(2, j) as real)
    ensures v > c * Two(e + j) <==> v * Two(-e) > c * (Pow(2, j) as real)
  {
    hide Two, Pow;
    TwoAdd(e, j);
    TwoAdd(e, -e);
    TwoZero();
    TwoIsPow(j);
    var t, h := c * Two(e + j), Two(-e);
    assert t * h == c * (Pow(2, j) as real) by {
      assert (c * (Two(e) * Two(j))) * h == (c * Two(j)) * (Two(e) * h);
    }
    CancelR(v, t, h);
    CancelR(t, v, h);
  }

  /** The comparison of the low bits with the half-way point, error included, places the number itself. */
  lemma Bracket(v: real, f: nat, e: int, err: nat, bits: nat, r: nat, rest: nat)
    requires StrictlyNear(v, f, e, err) && err <= 200 && bits >= 11
    requires r == f / Pow(2, bits) && rest == f % Pow(2, bits)
    ensures (4.0 * (r as real) - 1.0) * Two(e + bits - 2) < v < (2.0 * (r as real) + 3.0) * Two(e + bits - 1)
    ensures 8 * rest >= 8 * Pow(2, bits - 1) + err ==> v > (2.0 * (r as real) + 1.0) * Two(e + bits - 1)
    ensures 8 * rest <= 8 * Pow(2, bits - 1) - err ==> v < (2.0 * (r as real) + 1.0) * Two(e + bits - 1)
  {
    hide Two, Pow, StrictlyNear;
    var k := SplitAt(f, bits, r, rest);
    var w := v * Two(-e);
    NearScaled(v, f, e, err, w);
    PlaceInts(w, f, err, r, rest, k);
    Places(v, w, e, bits, r as real, k);
  }

  lemma SplitAt(f: nat, bits: nat, r: nat, rest: nat) returns (k: nat)
    requires bits >= 11 && r == f / Pow(2, bits) && rest == f % Pow(2, bits)
    ensures k == Pow(2, bits - 2) && k >= 512 && Pow(2, bits - 1) == 2 * k
    ensures f == 4 * (r * k) + rest && rest < 4 * k
  {
    hide Pow;
    k := Pow(2, bits - 2);
    PowAdd(2, bits - 2, 1);
    PowAdd(2, bits - 2, 2);
    PowMonotone(2, 9, bits - 2);
    FewPowers();
    DivMod(f, Pow(2, bits), r, rest);
    assert r * (4 * k) == 4 * (r * k);
  }

  lemma Places(v: real, w: real, e: int, bits: nat, r: real, k: nat)
    requires w == v * Two(-e) && bits >= 2 && k == Pow(2, bits - 2) && Pow(2, bits - 1) == 2 * k
    ensures v > (4.0 * r - 1.0) * Two(e + bits - 2) <==> w > (4.0 * r - 1.0) * (k as real)
    ensures v < (2.0 * r + 3.0) * Two(e + bits - 1) <==> w < (2.0 * r + 3.0) * ((2 * k) as real)
    ensures v < (2.0 * r + 1.0) * Two(e + bits - 1) <==> w < (2.0 * r + 1.0) * ((2 * k) as real)
    ensures v > (2.0 * r + 1.0) * Two(e + bits - 1) <==> w > (2.0 * r + 1.0) * ((2 * k) as real)
  {
    hide Two, Pow;
    assert e + (bits - 2) == e + bits - 2 && e + (bits - 1) == e + bits - 1;
    ScaledCompare(v, e, 4.0 * r - 1.0, bits - 2);
    ScaledCompare(v, e, 2.0 * r + 3.0, bits - 1);
    ScaledCompare(v, e, 2.0 * r + 1.0, bits - 1);
  }

  lemma DivMod(f: nat, n: nat, r: nat, rest: nat)
    requires n > 0 && r == f / n && rest == f % n
    ensures f == r * n + rest && rest < n
  {
  }

  lemma NearScaled(v: real, f: nat, e: int, err: nat, w: real)
    requires StrictlyNear(v, f, e, err) && w == v * Two(-e)
    ensures -(err as real) < 8.0 * w - 8.0 * (f as real) < err as real
  {
    hide Two;
  }

  lemma PlaceInts(w: real, f: nat, err: nat, r: nat, rest: nat, k: nat)
    requires f == 4 * (r * k) + rest && rest < 4 * k && k >= 512 && err <= 200
    requires -(err as real) < 8.0 * w - 8.0 * (f as real) < err as real
    ensures (4.0 * (r as real) - 1.0) * (k as real) < w < (2.0 * (r as real) + 3.0) * ((2 * k) as real)
    ensures 8 * rest >= 16 * k + err ==> w > (2.0 * (r as real) + 1.0) * ((2 * k) as real)
    ensures 8 * rest <= 16 * k - err ==> w < (2.0 * (r as real) + 1.0) * ((2 * k) as real)
  {
    CastSplit(f, k, r, rest);
    assert (2 * k) as real == 2.0 * (k as real);
    PlaceNumber(w, r as real, rest as real, k as real, err as real, (r as real) * (k as real), f as real);
  }

  lemma CastSplit(f: nat, k: nat, r: nat, rest: nat)
    requires f == 4 * (r * k) + rest
    ensures f as real == 4.0 * ((r as real) * (k as real)) + rest as real
  {
    CastProduct(r, k);
  }

  lemma FewPowers()
    ensures Pow(2, 1) == 2 && Pow(2, 2) == 4 && Pow(2, 9) == 512
  {
  }

  lemma PlaceNumber(w: real, r: real, rest: real, k: real, err: real, rk: real, f: real)
    requires k >= 512.0 && 0.0 <= rest < 4.0 * k && 0.0 <= err <= 200.0
    requires rk == r * k && f == 4.0 * rk + rest && -err < 8.0 * w - 8.0 * f < err
    ensures (4.0 * r - 1.0) * k < w && w < (2.0 * r + 3.0) * (2.0 * k)
    ensures 8.0 * rest >= 16.0 * k + err ==> w > (2.0 * r + 1.0) * (2.0 * k)
    ensures 8.0 * rest <= 16.0 * k - err ==> w < (2.0 * r + 1.0) * (2.0 * k)
  {
    assert (4.0 * r - 1.0) * k == 4.0 * rk - k;
    assert (2.0 * r + 3.0) * (2.0 * k) == 4.0 * rk + 6.0 * k;
    assert (2.0 * r + 1.0) * (2.0 * k) == 4.0 * rk + 2.0 * k;
  }

  /** Below the smallest denormal: nothing, unless the number lies above half of it. */
  lemma Underflows(m: nat, p: int, x: int)
    requires x < DENORMAL_EXPONENT && Exact(m, p) < 3.0 * Two(x - 1)
    ensures RoundsTo(0, m, p) || RoundsTo(1, m, p)
    ensures x < -1075 || Exact(m, p) <= Two(-1075) ==> RoundsTo(0, m, p)
  {
    hide Two, Pow, Compare, Exact;
    assert Boundary(0) == 1 && Boundary(1) == 3 by {
      SmallBoundaries();
    }
    CompareIsReal(m, p, 1);
    CompareIsReal(m, p, 3);
    TwoNext(-1076);
    TwoNext(-1077);
    GrowingTwo(x - 1, -1076);
    if x < -1075 {
      GrowingTwo(x - 1, -1077);
    }
  }

  lemma SmallBoundaries()
    ensures Boundary(0) == 1 && Boundary(1) == 3
  {
    assert Pow(2, 0) == 1;
  }
}
