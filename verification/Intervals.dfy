/** Rounding intervals seen at different decimal scales. */
module Intervals {
  import opened Arithmetic
  import opened Shortest

  /** 10^p where that is an integer above one. */
  function Ten(p: int): (t: nat)
    ensures t > 0
  {
    Pow(10, Max(p, 0))
  }

  /** u is t divided by 10^q, on a denominator of its own. */
  ghost predicate ScaledBy(t: Target, u: Target, q: int) {
    && t.closed == u.closed && t.den > 0 && u.den > 0
    && SameRatio(u.num, u.den, t.num, t.den, q)
    && SameRatio(u.minus, u.den, t.minus, t.den, q)
    && SameRatio(u.plus, u.den, t.plus, t.den, q)
  }

  /** a / b == c / d / 10^q. */
  ghost predicate SameRatio(a: int, b: int, c: int, d: int, q: int) {
    (a * d) * Ten(q) == (c * b) * Ten(-q)
  }

  lemma Decimal(t: Target, m: nat, p: int)
    ensures t.ContainsDecimal(m, p) <==> t.Contains(m * Ten(p), Ten(-p))
  {
    assert Pow(10, 0) == 1;
    assert m * 1 == m;
  }

  lemma TenTimesTen(p: int, q: int)
    ensures (Ten(-p) * Ten(-q)) * Ten(p + q) == (Ten(p) * Ten(q)) * Ten(-p - q)
  {
    hide Pow;
    assert Pow(10, 0) == 1 by { Zero(); }
    PowAdd(10, Max(-p, 0), Max(-q, 0));
    PowAdd(10, Max(p, 0), Max(q, 0));
    PowAdd(10, Max(-p, 0) + Max(-q, 0), Max(p + q, 0));
    PowAdd(10, Max(p, 0) + Max(q, 0), Max(-p - q, 0));
    assert Max(-p, 0) + Max(-q, 0) + Max(p + q, 0) == Max(p, 0) + Max(q, 0) + Max(-p - q, 0);
  }

  lemma Zero()
    ensures Pow(10, 0) == 1
  {
  }

  /** Signed distances at two scales agree up to a positive factor: with a' / d' == a / d * w / u and
      y / x * w / u == Y / X, the difference m x d' - a' y is that of m X d - a Y, times x d' / (d X). */
  lemma Rescale(a': int, d': nat, a: int, d: nat, u: nat, w: nat, x: nat, y: nat, X: nat, Y: nat, m: int)
    requires d' > 0 && d > 0 && u > 0 && w > 0 && x > 0 && y > 0 && X > 0 && Y > 0
    requires (a' * d) * u == (a * d') * w
    requires (y * w) * X == (x * u) * Y
    ensures ((m * x) * d' - a' * y) * (d * X) == ((m * X) * d - a * Y) * (x * d')
  {
    CrossTerm(a', d', a, d, u, w, x, y, X, Y);
    assert ((m * x) * d') * (d * X) == ((m * X) * d) * (x * d');
    assert ((m * x) * d' - a' * y) * (d * X) == ((m * x) * d') * (d * X) - (a' * y) * (d * X);
    assert ((m * X) * d - a * Y) * (x * d') == ((m * X) * d) * (x * d') - (a * Y) * (x * d');
  }

  lemma CrossTerm(a': int, d': nat, a: int, d: nat, u: nat, w: nat, x: nat, y: nat, X: nat, Y: nat)
    requires u > 0
    requires (a' * d) * u == (a * d') * w
    requires (y * w) * X == (x * u) * Y
    ensures (a' * y) * (d * X) == (a * Y) * (x * d')
  {
    var l, r := (a' * y) * (d * X), (a * Y) * (x * d');
    calc {
      l * u;
      { Shuffle(a', y, d, X, u); }
      ((a' * d) * u) * (y * X);
      ((a * d') * w) * (y * X);
      { Shuffle2(a, d', w, y, X); }
      (a * d') * ((y * w) * X);
      (a * d') * ((x * u) * Y);
      { Shuffle3(a, d', x, u, Y); }
      r * u;
    }
    MulCancel(l, r, u);
  }

  lemma Shuffle(a: int, y: int, d: int, x: int, u: int)
    ensures ((a * y) * (d * x)) * u == ((a * d) * u) * (y * x)
  {
    assert (a * y) * (d * x) == (a * d) * (y * x);
  }

  lemma Shuffle2(a: int, d: int, w: int, y: int, x: int)
    ensures ((a * d) * w) * (y * x) == (a * d) * ((y * w) * x)
  {
    var k := a * d;
    assert (k * w) * (y * x) == k * ((y * w) * x);
  }

  lemma Shuffle3(a: int, d: int, x: int, u: int, y: int)
    ensures (a * d) * ((x * u) * y) == ((a * y) * (x * d)) * u
  {
    assert (a * d) * (x * y) == (a * y) * (x * d);
    assert (a * d) * ((x * u) * y) == ((a * d) * (x * y)) * u;
  }

  /** How far m * 10^p lies above t's number, in units of 1 / (t.den * 10^max(-p, 0)). */
  ghost function Off(t: Target, m: nat, p: int): int {
    (m * Ten(p)) * t.den - t.num * Ten(-p)
  }

  function Abs(x: int): nat {
    if x >= 0 then x else -x
  }

  /** Whatever m is, the offsets at the two scales differ by one and the same positive factor. */
  lemma SameOffset(a': int, d': nat, a: int, d: nat, q: int, m: nat, p: int)
    requires d' > 0 && d > 0 && SameRatio(a', d', a, d, q)
    ensures d * Ten(p + q) > 0 && Ten(p) * d' > 0
    ensures ((m * Ten(p)) * d' - a' * Ten(-p)) * (d * Ten(p + q))
         == ((m * Ten(p + q)) * d - a * Ten(-p - q)) * (Ten(p) * d')
  {
    hide Ten;
    TenTimesTen(p, q);
    MulStrict(0, d, Ten(p + q));
    MulStrict(0, d', Ten(p));
    Rescale(a', d', a, d, Ten(q), Ten(-q), Ten(p), Ten(-p), Ten(p + q), Ten(-p - q), m);
  }

  lemma SumRatio(a: int, b: int, x: int, c: int, d: int, y: int, q: int)
    requires SameRatio(a, b, c, d, q) && SameRatio(x, b, y, d, q)
    ensures SameRatio(a - x, b, c - y, d, q) && SameRatio(a + x, b, c + y, d, q)
  {
    hide Ten;
    Distribute(a, x, d);
    Distribute(a * d, x * d, Ten(q));
    Distribute(c, y, b);
    Distribute(c * b, y * b, Ten(-q));
  }

  lemma SignOfProduct(x: int, f: int, y: int, g: int)
    requires f > 0 && g > 0 && x * f == y * g
    ensures x < 0 <==> y < 0
    ensures x == 0 <==> y == 0
  {
    if x < 0 { MulStrict(x, 0, f); } else if x > 0 { MulStrict(0, x, f); }
    if y < 0 { MulStrict(y, 0, g); } else if y > 0 { MulStrict(0, y, g); }
  }

  /** The same decimals round to the number at both scales. */
  lemma SameDecimals(t: Target, u: Target, q: int, m: nat, p: int)
    requires ScaledBy(t, u, q)
    ensures u.ContainsDecimal(m, p) <==> t.ContainsDecimal(m, p + q)
  {
    hide Ten, SameRatio;
    Decimal(u, m, p);
    Decimal(t, m, p + q);
    SumRatio(u.num, u.den, u.minus, t.num, t.den, t.minus, q);
    SumRatio(u.num, u.den, u.plus, t.num, t.den, t.plus, q);
    SameOffset(u.num - u.minus, u.den, t.num - t.minus, t.den, q, m, p);
    SameOffset(u.num + u.plus, u.den, t.num + t.plus, t.den, q, m, p);
    SignOfProduct((m * Ten(p)) * u.den - (u.num - u.minus) * Ten(-p), t.den * Ten(p + q),
                  (m * Ten(p + q)) * t.den - (t.num - t.minus) * Ten(-p - q), Ten(p) * u.den);
    SignOfProduct((m * Ten(p)) * u.den - (u.num + u.plus) * Ten(-p), t.den * Ten(p + q),
                  (m * Ten(p + q)) * t.den - (t.num + t.plus) * Ten(-p - q), Ten(p) * u.den);
  }

  /** And of two decimals with the same last place the same one is closer. */
  lemma SameOrder(t: Target, u: Target, q: int, m: nat, n: nat, p: int)
    requires ScaledBy(t, u, q)
    ensures Abs(Off(u, m, p)) <= Abs(Off(u, n, p)) <==> Abs(Off(t, m, p + q)) <= Abs(Off(t, n, p + q))
    ensures Abs(Off(u, m, p)) == Abs(Off(u, n, p)) <==> Abs(Off(t, m, p + q)) == Abs(Off(t, n, p + q))
  {
    hide Ten;
    SameOffset(u.num, u.den, t.num, t.den, q, m, p);
    SameOffset(u.num, u.den, t.num, t.den, q, n, p);
    CompareScaled(Off(u, m, p), Off(u, n, p), t.den * Ten(p + q), Off(t, m, p + q), Off(t, n, p + q), Ten(p) * u.den);
  }

  lemma CompareScaled(x: int, x': int, f: int, y: int, y': int, g: int)
    requires f > 0 && g > 0 && x * f == y * g && x' * f == y' * g
    ensures Abs(x) <= Abs(x') <==> Abs(y) <= Abs(y')
    ensures Abs(x) == Abs(x') <==> Abs(y) == Abs(y')
  {
    AbsProduct(x, f);
    AbsProduct(x', f);
    AbsProduct(y, g);
    AbsProduct(y', g);
    MulCancel(Abs(x), Abs(x'), f);
    MulCancel(Abs(y), Abs(y'), g);
  }

  lemma AbsProduct(x: int, f: int)
    requires f > 0
    ensures Abs(x) * f == Abs(x * f)
  {
    if x >= 0 {
      MulMonotone(0, x, f);
    } else {
      MulStrict(x, 0, f);
    }
  }

  /** n * 10^(point - length) is the shortest decimal that rounds to t, and of those a closest one. */
  ghost predicate ShortestDecimal(t: Target, n: nat, length: nat, point: int) {
    && length > 0
    && t.ContainsDecimal(n, point - length)
    && (forall m: nat, p: int :: m < Pow(10, length - 1) ==> !t.ContainsDecimal(m, p))
    && IsClosest(t, n, point - length)
  }

  ghost predicate IsClosest(t: Target, n: nat, p: int) {
    forall m: nat :: t.ContainsDecimal(m, p) ==> AtLeastAsClose(t, n, m, p)
  }

  ghost predicate AtLeastAsClose(t: Target, n: nat, m: nat, p: int) {
    && Abs(Off(t, n, p)) <= Abs(Off(t, m, p))
    && (m != n && Abs(Off(t, n, p)) == Abs(Off(t, m, p)) ==> n % 2 == 0)
  }

  lemma AtOnes(t: Target, m: nat, k: nat)
    ensures t.Contains(m, Pow(10, k)) <==> t.ContainsDecimal(m, -(k as int))
    ensures t.Distance(m, k) == Abs(Off(t, m, -(k as int)))
  {
    assert Pow(10, 0) == 1;
    assert (m * 1) * t.den == m * t.den;
  }

  /** What the digit generation finds for a scaled number is the shortest decimal of the number itself. */
  lemma ShortestAtScale(t: Target, u: Target, q: int, n: nat, length: nat)
    requires ScaledBy(t, u, q) && length > 0 && u.IsShortest(n, length - 1)
    ensures ShortestDecimal(t, n, length, q + 1)
  {
    hide ScaledBy, Pow, Ten, Off;
    var k: int, last: int := length - 1, q - length + 1;
    AtOnes(u, n, k);
    SameDecimals(t, u, q, n, -k);
    forall m: nat, p: int | m < Pow(10, length - 1)
      ensures !t.ContainsDecimal(m, p)
    {
      SameDecimals(t, u, q, m, p - q);
    }
    forall m: nat | t.ContainsDecimal(m, last)
      ensures AtLeastAsClose(t, n, m, last)
    {
      AtOnes(u, m, k);
      SameDecimals(t, u, q, m, -k);
      SameOrder(t, u, q, n, m, -k);
      assert u.Beats(n, m, k);
    }
  }

  /** How far m * 10^p lies above the upper end of the interval. */
  ghost function UpperOff(t: Target, m: nat, p: int): int {
    (m * Ten(p)) * t.den - (t.num + t.plus) * Ten(-p)
  }

  /** The upper end lies between the two powers of ten around the decimal point. */
  ghost predicate UpperPlace(t: Target, point: int) {
    UpperOff(t, 1, point - 1) <= 0 <= UpperOff(t, 1, point)
  }

  /** Between one and ten at the scale of digit generation: that fixes the decimal point. */
  lemma UpperPlaceAtScale(t: Target, u: Target, q: int)
    requires ScaledBy(t, u, q) && u.Normalized()
    ensures UpperPlace(t, q + 1)
  {
    hide SameRatio;
    SumRatio(u.num, u.den, u.plus, t.num, t.den, t.plus, q);
    SameOffset(u.num + u.plus, u.den, t.num + t.plus, t.den, q, 1, 0);
    SameOffset(u.num + u.plus, u.den, t.num + t.plus, t.den, q, 1, 1);
    SignOfProduct(UpperOff(u, 1, 0), t.den * Ten(q), UpperOff(t, 1, q), Ten(0) * u.den);
    SignOfProduct(UpperOff(u, 1, 1), t.den * Ten(q + 1), UpperOff(t, 1, q + 1), Ten(1) * u.den);
    SmallTens();
  }

  lemma SmallTens()
    ensures Ten(0) == 1 && Ten(1) == 10 && Ten(-1) == 1
  {
    assert Pow(10, 0) == 1;
  }
}
