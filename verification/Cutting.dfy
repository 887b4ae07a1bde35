/** Why a decimal may be cut to 772 digits, or more, and a sticky one: no boundary between two doubles needs more. */
module Cutting {
  import opened Arithmetic
  import opened Ieee
  import opened Intervals
  import opened Shortest

  lemma {:induction false} FiveBelowEight(k: nat)
    ensures Pow(5, 3 * k) <= Pow(2, 7 * k)
  {
    if k > 0 {
      FiveBelowEight(k - 1);
      PowAdd(5, 3, 3 * (k - 1));
      PowAdd(2, 7, 7 * (k - 1));
      assert Pow(5, 3) == 125 && Pow(2, 7) == 128;
      MulMonotone(Pow(5, 3 * (k - 1)), Pow(2, 7 * (k - 1)), 125);
    }
  }

  lemma {:induction false} EightBelowTen(k: nat)
    ensures Pow(2, 3 * k) <= Pow(10, k)
  {
    if k > 0 {
      EightBelowTen(k - 1);
      PowAdd(2, 3, 3 * (k - 1));
      assert Pow(2, 3) == 8;
    }
  }

  /** A boundary is an odd number below 2^54 times a power of two. */
  lemma BoundaryForm(d: Double) returns (c: nat, x: nat)
    requires d < INFINITY
    ensures Boundary(d) == c * Pow(2, x) && 0 < c < 2 * (2 * HIDDEN_BIT) && x <= 2045
  {
    UpperBoundary(d);
    c, x := 2 * Significand(d) + 1, Exponent(d) - 1 + 1075;
  }

  /** 54 bits times 5^j is less than 10^771 when j stays below 1075. */
  lemma FewDigits(c: nat, j: nat, s: nat)
    requires c < 2 * (2 * HIDDEN_BIT) && j + s <= 1074
    ensures (c * Pow(2, s)) * Pow(10, j) < Pow(10, 771) * Pow(2, 1075)
  {
    hide Pow;
    var top, gap, n := 771, 303, 1074;
    PowProduct(2, 5, j);
    PowAdd(2, s, j);
    Group(c, Pow(2, s), Pow(2, j), Pow(5, j));
    assert (c * Pow(2, s)) * Pow(10, j) == (c * Pow(5, j)) * Pow(2, s + j);
    PowMonotone(5, j, n);
    PowMonotone(2, s + j, n);
    MulMonotone(Pow(5, j), Pow(5, n), c);
    MulMonotone(c * Pow(5, j), c * Pow(5, n), Pow(2, s + j));
    MulMonotone(Pow(2, s + j), Pow(2, n), c * Pow(5, n));
    SmallFactor(c, top, gap);
    PowAdd(5, top, gap);
    PowAdd(2, n, 1);
    One();
    PowProduct(2, 5, top);
    FinalBound(c, Pow(5, top), Pow(5, gap), Pow(2, top), Pow(2, n));
  }

  lemma Group(c: int, x: int, y: int, z: int)
    ensures (c * x) * (y * z) == (c * z) * (x * y)
  {
    assert (c * x) * (y * z) == ((c * z) * x) * y;
  }

  lemma SmallFactor(c: nat, top: nat, gap: nat)
    requires c < 2 * (2 * HIDDEN_BIT) && top == 771 && gap == 303
    ensures c * Pow(5, gap) < Pow(2, top)
  {
    hide Pow;
    var third := 101;
    FiveBelowEight(third);
    PowMonotone(5, gap, 3 * third);
    MulMonotone(Pow(5, gap), Pow(2, 7 * third), c);
    Pow54();
    PowAdd(2, 54, 7 * third);
    MulStrict(c, Pow(2, 54), Pow(2, 7 * third));
    PowMonotone(2, 54 + 7 * third, top);
  }

  lemma Pow54()
    ensures Pow(2, 54) == 2 * (2 * HIDDEN_BIT)
  {
    PowAdd(2, 9, 9);
    PowAdd(2, 18, 9);
    PowAdd(2, 27, 27);
  }

  lemma FinalBound(c: nat, top5: nat, gap5: nat, top2: nat, n2: nat)
    requires c * gap5 < top2 && top5 > 0 && n2 > 0
    ensures (c * (top5 * gap5)) * n2 < (top2 * top5) * (n2 * 2)
  {
    MulStrict(c * gap5, top2, top5);
    assert c * (top5 * gap5) == (c * gap5) * top5;
    MulStrict(c * (top5 * gap5), top2 * top5, n2);
    assert (top2 * top5) * (n2 * 2) == 2 * ((top2 * top5) * n2);
    MulStrict(0, top5, n2);
    MulMonotone(0, (top2 * top5), n2);
  }

  /** Between two consecutive 772-digit decimals there is no boundary. */
  lemma NoBoundaryInside(d: Double, prefix: nat, k: int)
    requires d < INFINITY && prefix >= Pow(10, 771)
    ensures Compare(prefix, k, Boundary(d)) >= 0 || Compare(prefix + 1, k, Boundary(d)) <= 0
  {
    hide Pow;
    One();
    var c, x := BoundaryForm(d);
    if k > 0 {
      TooLarge(c, x, prefix, k);
    } else {
      var j := -k;
      if x + j >= 1075 {
        WholeMultiple(c, x, j, prefix);
      } else {
        FewDigits(c, j, x);
        MulMonotone(Pow(10, 771), prefix, Pow(2, 1075));
      }
    }
  }

  lemma TooLarge(c: nat, x: nat, prefix: nat, k: nat)
    requires k > 0 && prefix >= Pow(10, 771) && c < 2 * (2 * HIDDEN_BIT) && x <= 2045
    ensures c * Pow(2, x) <= (prefix * Pow(10, k)) * Pow(2, 1075)
  {
    hide Pow;
    var n, top := 1075, 2313;
    Pow54();
    MulMonotone(c, Pow(2, 54), Pow(2, x));
    PowAdd(2, 54, x);
    PowMonotone(2, 54 + x, top + n);
    PowAdd(2, top, n);
    EightBelowTen(771);
    One();
    PowMonotone(10, 0, k);
    MulMonotone(1, Pow(10, k), prefix);
    MulMonotone(Pow(2, top), prefix * Pow(10, k), Pow(2, n));
  }

  /** A boundary that is a multiple of 10^-j. */
  lemma WholeMultiple(c: nat, x: nat, j: nat, prefix: nat)
    requires x + j >= 1075
    ensures var k := (c * Pow(2, x)) * Pow(10, j);
            k <= prefix * Pow(2, 1075) || k >= (prefix + 1) * Pow(2, 1075)
  {
    hide Pow;
    var n := 1075;
    PowProduct(2, 5, j);
    PowAdd(2, x, j);
    PowAdd(2, x + j - n, n);
    Group(c, Pow(2, x), Pow(2, j), Pow(5, j));
    var q := (c * Pow(5, j)) * Pow(2, x + j - n);
    assert (c * Pow(5, j)) * (Pow(2, x + j - n) * Pow(2, n)) == q * Pow(2, n) by {
      Associate(c * Pow(5, j), Pow(2, x + j - n), Pow(2, n));
    }
    if q <= prefix {
      MulMonotone(q, prefix, Pow(2, n));
    } else {
      MulMonotone(prefix + 1, q, Pow(2, n));
    }
  }

  lemma CompareGrows(m: nat, m': nat, p: int, k: nat)
    requires m < m'
    ensures Compare(m, p, k) < Compare(m', p, k)
  {
    hide Pow, Ten;
    PowPositive(1075);
    MulStrict(m, m', Ten(p));
    MulStrict(m * Ten(p), m' * Ten(p), Pow(2, 1075));
  }

  lemma PowPositive(n: nat)
    ensures Pow(2, n) > 0
  {
  }

  /** Final zeros can be moved into the exponent. */
  lemma ShiftDecimal(m: nat, r: nat, p: int, k: nat)
    ensures Sign(Compare(m * Pow(10, r), p, k)) == Sign(Compare(m, p + r, k))
  {
    hide Pow, Ten;
    TenTimesTen(p, r);
    TenOfNat(r);
    var b := Pow(2, 1075);
    ShiftAlgebra(m, Pow(10, r), b, k, Ten(p), Ten(-p), Ten(p + r), Ten(-p - r));
    MulStrict(0, Pow(10, r), Ten(p));
    SignOfProduct(Compare(m * Pow(10, r), p, k), Ten(p + r), Compare(m, p + r, k), Ten(p) * Pow(10, r));
  }

  lemma TenOfNat(r: nat)
    ensures Ten(r) == Pow(10, r) > 0 && Ten(-(r as int)) == 1
  {
    assert Pow(10, 0) == 1;
  }

  lemma ShiftAlgebra(m: int, r: int, b: int, k: int, x: int, y: int, X: int, Y: int)
    requires (y * 1) * X == (x * r) * Y
    ensures (((m * r) * x) * b - k * y) * X == ((m * X) * b - k * Y) * (x * r)
  {
    Distribute(((m * r) * x) * b, k * y, X);
    Distribute((m * X) * b, k * Y, x * r);
    Associate(k, y, X);
    Associate(k, Y, x * r);
    assert (x * r) * Y == Y * (x * r);
    FourFactors(m, r, x, b, X);
  }

  lemma FourFactors(m: int, r: int, x: int, b: int, X: int)
    ensures (((m * r) * x) * b) * X == ((m * X) * b) * (x * r)
  {
    assert (m * r) * x == m * (x * r);
    assert ((m * (x * r)) * b) * X == ((m * X) * b) * (x * r);
  }

  /** Two decimals that lie on the same side of every boundary, so that they round alike. */
  ghost predicate SameSides(m: nat, p: int, m': nat, p': int) {
    forall d: Double :: d < INFINITY ==> Sign(Compare(m, p, Boundary(d))) == Sign(Compare(m', p', Boundary(d)))
  }

  lemma SameRounding(m: nat, p: int, m': nat, p': int, d: Double)
    requires SameSides(m, p, m', p')
    ensures RoundsTo(d, m, p) <==> RoundsTo(d, m', p')
  {
  }

  /** The cut: everything behind the first 772 digits, or more, becomes a single one. */
  lemma CutKeepsSides(prefix: nat, tail: nat, r: nat, exponent: int)
    requires prefix >= Pow(10, 771) && 0 < tail < Pow(10, r)
    ensures SameSides(prefix * Pow(10, r) + tail, exponent, 10 * prefix + 1, exponent + r - 1)
  {
    hide Pow, Ten, Compare, Boundary;
    forall d: Double | d < INFINITY
      ensures Sign(Compare(prefix * Pow(10, r) + tail, exponent, Boundary(d)))
           == Sign(Compare(10 * prefix + 1, exponent + r - 1, Boundary(d)))
    {
      var k := Boundary(d);
      NoBoundaryInside(d, prefix, exponent + r);
      ShiftDecimal(prefix, r, exponent, k);
      ShiftDecimal(prefix + 1, r, exponent, k);
      ShiftDecimal(prefix, 1, exponent + r - 1, k);
      ShiftDecimal(prefix + 1, 1, exponent + r - 1, k);
      TenToTheOne();
      Distribute(prefix, 1, Pow(10, r));
      CompareGrows(prefix * Pow(10, r), prefix * Pow(10, r) + tail, exponent, k);
      CompareGrows(prefix * Pow(10, r) + tail, (prefix + 1) * Pow(10, r), exponent, k);
      CompareGrows(prefix * Pow(10, 1), 10 * prefix + 1, exponent + r - 1, k);
      CompareGrows(10 * prefix + 1, (prefix + 1) * Pow(10, 1), exponent + r - 1, k);
    }
  }

  lemma TenToTheOne()
    ensures Pow(10, 1) == 10
  {
  }

  lemma TrimKeepsSides(m: nat, r: nat, exponent: int)
    ensures SameSides(m * Pow(10, r), exponent, m, exponent + r)
  {
    forall d: Double | d < INFINITY
      ensures Sign(Compare(m * Pow(10, r), exponent, Boundary(d))) == Sign(Compare(m, exponent + r, Boundary(d)))
    {
      ShiftDecimal(m, r, exponent, Boundary(d));
    }
  }
}
