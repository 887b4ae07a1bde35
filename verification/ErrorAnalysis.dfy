/** How far a DiyFp may be from the number it approximates, in eighths of its last place. */
module ErrorAnalysis {
  import opened Arithmetic
  import opened DiyFps
  import opened Reals

  /** v is within err eighths of a unit in the last place of f * 2^e. */
  ghost predicate Near(v: real, f: nat, e: int, err: nat) {
    -(err as real) <= 8.0 * (v * Two(-e)) - 8.0 * (f as real) <= err as real
  }

  ghost predicate StrictlyNear(v: real, f: nat, e: int, err: nat) {
    -(err as real) < 8.0 * (v * Two(-e)) - 8.0 * (f as real) < err as real
  }

  lemma WiderNear(v: real, f: nat, e: int, err: nat, err': nat)
    requires StrictlyNear(v, f, e, err) && err <= err'
    ensures StrictlyNear(v, f, e, err')
  {
  }

  /** Shifting the significand up shifts the error with it. */
  lemma ShiftNear(v: real, f: nat, e: int, err: nat, s: nat)
    ensures Near(v, f, e, err) ==> Near(v, f * Pow(2, s), e - s, err * Pow(2, s))
    ensures StrictlyNear(v, f, e, err) ==> StrictlyNear(v, f * Pow(2, s), e - s, err * Pow(2, s))
  {
    hide Pow, Two;
    TwoAdd(-e, s);
    TwoIsPow(s);
    CastProduct(f, Pow(2, s));
    CastProduct(err, Pow(2, s));
    var k := Two(s);
    ScaleError(v * Two(-e), f as real, err as real, k);
    assert v * (Two(-e) * k) == (v * Two(-e)) * k;
  }

  lemma ScaleError(w: real, f: real, err: real, k: real)
    requires k > 0.0
    ensures 8.0 * (w * k) - 8.0 * (f * k) == (8.0 * w - 8.0 * f) * k
    ensures -err <= 8.0 * w - 8.0 * f <= err ==> -(err * k) <= (8.0 * w - 8.0 * f) * k <= err * k
    ensures -err < 8.0 * w - 8.0 * f < err ==> -(err * k) < (8.0 * w - 8.0 * f) * k < err * k
  {
    var x := 8.0 * w - 8.0 * f;
    assert (-err) * k == -(err * k);
    if -err <= x <= err {
      MonotoneR(-err, x, k);
      MonotoneR(x, err, k);
    }
    if -err < x < err {
      StrictR(-err, x, k);
      StrictR(x, err, k);
    }
  }

  /** The error of a rounded product: that of the first factor, half a unit in the last place for an
      inexact second factor, and half a unit for the rounding. */
  lemma ErrorOfProduct(w: real, f: real, a: real, g: real, word: real, r: real, err: real, delta: real,
                       total: real, bound: real)
    requires total == w * a && bound == err + 4.0 + 8.0 * delta
    requires word > 0.0 && 0.0 <= f < word && 0.0 <= a <= word && err >= 0.0
    requires -err <= 8.0 * w - 8.0 * f <= err
    requires -delta <= a - g <= delta && delta >= 0.0
    requires -0.5 * word <= f * g - r * word <= 0.5 * word
    ensures -(bound * word) <= 8.0 * total - 8.0 * (r * word) <= bound * word
    ensures delta > 0.0 ==> -(bound * word) < 8.0 * total - 8.0 * (r * word) < bound * word
  {
    var x, y := 8.0 * w - 8.0 * f, a - g;
    var xa, ew, yf, dw := x * a, err * word, y * f, delta * word;
    Bounded(x, a, err, word, xa, ew);
    Bounded(y, f, delta, word, yf, dw);
    if delta > 0.0 {
      StrictlyBounded(y, f, delta, word, yf, dw);
    }
    EightfoldDifference(w, f, a, xa, total);
    DistributeR(a, g, f);
    SumTimes(err, delta, word, bound, ew, dw);
    AddUp(total, f * a, f * g, r * word, bound * word, ew, dw, word, xa, yf);
  }

  lemma Bounded(x: real, a: real, b: real, word: real, xa: real, bw: real)
    requires xa == x * a && bw == b * word && -b <= x <= b && 0.0 <= a <= word && b >= 0.0
    ensures -bw <= xa <= bw
  {
    var y := 0.0 - x;
    var ya := y * a;
    Opposite(x, y, a, xa, ya);
    UpTo(x, a, b, word, xa, bw);
    UpTo(y, a, b, word, ya, bw);
  }

  lemma StrictlyBounded(x: real, a: real, b: real, word: real, xa: real, bw: real)
    requires xa == x * a && bw == b * word && -b <= x <= b && 0.0 <= a < word && b > 0.0
    ensures -bw < xa < bw
  {
    var y := 0.0 - x;
    var ya := y * a;
    Opposite(x, y, a, xa, ya);
    UpTo(x, a, b, word, xa, bw);
    UpTo(y, a, b, word, ya, bw);
  }

  lemma UpTo(x: real, a: real, b: real, word: real, xa: real, bw: real)
    requires xa == x * a && bw == b * word && x <= b && 0.0 <= a <= word && b >= 0.0
    ensures xa <= bw
    ensures a < word && b > 0.0 ==> xa < bw
  {
    var ba := b * a;
    Ordered(x, b, a, xa, ba);
    Ordered(a, word, b, ba, bw);
  }

  lemma Ordered(x: real, y: real, z: real, xz: real, yz: real)
    requires xz == x * z && yz == y * z && x <= y && z >= 0.0
    ensures xz <= yz
    ensures x < y && z > 0.0 ==> xz < yz
  {
    var d := y - x;
    assert y == x + d;
    assert yz == xz + d * z;
    assert d * z >= 0.0;
    assert d > 0.0 && z > 0.0 ==> d * z > 0.0;
  }

  lemma Opposite(x: real, y: real, a: real, xa: real, ya: real)
    requires x + y == 0.0 && xa == x * a && ya == y * a
    ensures xa + ya == 0.0
  {
    assert (x + y) * a == x * a + y * a;
  }

  lemma EightfoldDifference(w: real, f: real, a: real, xa: real, wa: real)
    requires xa == (8.0 * w - 8.0 * f) * a && wa == w * a
    ensures xa == 8.0 * wa - 8.0 * (f * a)
  {
  }

  lemma SumTimes(err: real, delta: real, word: real, bound: real, ew: real, dw: real)
    requires bound == err + 4.0 + 8.0 * delta && ew == err * word && dw == delta * word
    ensures bound * word == ew + 4.0 * word + 8.0 * dw
  {
  }

  lemma AddUp(wa: real, fa: real, fg: real, rw: real, bw: real, ew: real, dw: real, word: real, xa: real, yf: real)
    requires xa == 8.0 * wa - 8.0 * fa && yf == fa - fg && bw == ew + 4.0 * word + 8.0 * dw
    requires -ew <= xa <= ew && -dw <= yf <= dw && -0.5 * word <= fg - rw <= 0.5 * word
    ensures -bw <= 8.0 * wa - 8.0 * rw <= bw
    ensures -dw < yf < dw ==> -bw < 8.0 * wa - 8.0 * rw < bw
  {
  }

  /** The same for DiyFp::Multiply: power is the number that g * 2^ge stands for. */
  lemma ProductNear(v: real, f: nat, e: int, err: nat, power: real, g: nat, ge: int, exact: bool, product: real)
    requires f < WORD && g < WORD && Near(v, f, e, err) && power > 0.0 && product == v * power
    requires var a := power * Two(-ge);
             if exact then a == g as real else -0.5 <= a - g as real <= 0.5 && a <= WORD as real
    ensures exact ==> Near(product, Rounded(f * g), e + ge + 64, err + 4)
    ensures !exact ==> StrictlyNear(product, Rounded(f * g), e + ge + 64, err + 8)
  {
    hide Two, Rounded;
    var a, word, r := power * Two(-ge), WORD as real, Rounded(f * g);
    PositiveProduct(power, Two(-ge));
    RoundingError(f, g);
    CastProduct(f, g);
    TwoTo64R();
    ScaledProduct(v, power, e, ge, word);
    ProductOfReals(v * Two(-e), f as real, a, g as real, product * Two(-(e + ge + 64)), r as real, err as real,
                   if exact then 0.0 else 0.5, word);
  }

  lemma ProductOfReals(w: real, f: real, a: real, g: real, x: real, r: real, err: real, delta: real, word: real)
    requires word > 0.0 && 0.0 <= f < word && 0.0 <= a <= word && err >= 0.0 && w * a == x * word
    requires -err <= 8.0 * w - 8.0 * f <= err && -delta <= a - g <= delta && delta >= 0.0
    requires -0.5 * word <= f * g - r * word <= 0.5 * word
    ensures -(err + 4.0 + 8.0 * delta) <= 8.0 * x - 8.0 * r <= err + 4.0 + 8.0 * delta
    ensures delta > 0.0 ==> -(err + 4.0 + 8.0 * delta) < 8.0 * x - 8.0 * r < err + 4.0 + 8.0 * delta
  {
    var bound := err + 4.0 + 8.0 * delta;
    var total := w * a;
    ErrorOfProduct(w, f, a, g, word, r, err, delta, total, bound);
    BackFromWord(x, r, bound, word, total);
  }

  /** An exact product of exact numbers stays exact. */
  lemma ExactProductNear(v: real, f: nat, e: int, power: real, g: nat, ge: int, product: real)
    requires product == v * power && Near(v, f, e, 0) && power > 0.0 && power * Two(-ge) == g as real
    requires Rounded(f * g) * WORD == f * g
    ensures Near(product, Rounded(f * g), e + ge + 64, 0)
  {
    hide Two, Rounded;
    var r := Rounded(f * g);
    TwoTo64R();
    ScaledProduct(v, power, e, ge, WORD as real);
    CastProduct(f, g);
    CastProduct(r, WORD);
    CancelR((v * power) * Two(-(e + ge + 64)), r as real, WORD as real);
  }

  lemma PositiveProduct(x: real, y: real)
    requires x > 0.0 && y > 0.0
    ensures x * y > 0.0
  {
  }

  lemma BackFromWord(x: real, r: real, bound: real, word: real, total: real)
    requires word > 0.0 && total == x * word
    ensures -(bound * word) <= 8.0 * total - 8.0 * (r * word) <= bound * word ==> -bound <= 8.0 * x - 8.0 * r <= bound
    ensures -(bound * word) < 8.0 * total - 8.0 * (r * word) < bound * word ==> -bound < 8.0 * x - 8.0 * r < bound
  {
    var y := 8.0 * x - 8.0 * r;
    assert y * word == 8.0 * (x * word) - 8.0 * (r * word);
    assert (-bound) * word == -(bound * word);
    CancelR(-bound, y, word);
    CancelR(y, bound, word);
  }

  lemma RoundingError(f: nat, g: nat)
    ensures var word, r := WORD as real, Rounded(f * g) as real;
            -0.5 * word <= (f * g) as real - r * word <= 0.5 * word
  {
    var p := f * g;
    var r := Rounded(p);
    assert -MSB <= p - r * WORD <= MSB;
    assert (r * WORD) as real == (r as real) * (WORD as real);
    assert (MSB as real) == 0.5 * (WORD as real);
  }

  lemma TwoTo64R()
    ensures Two(64) == WORD as real
  {
    hide Pow, Two;
    TwoIsPow(64);
    TwoTo64();
  }

  lemma ScaledProduct(v: real, power: real, e: int, ge: int, word: real)
    requires word == Two(64)
    ensures (v * Two(-e)) * (power * Two(-ge)) == ((v * power) * Two(-(e + ge + 64))) * word
  {
    hide Two;
    TwoAdd(-e, -ge);
    TwoAdd(-(e + ge + 64), 64);
    var x := Two(-(e + ge + 64));
    assert x * word == Two(-e) * Two(-ge);
    assert ((v * power) * x) * word == (v * power) * (x * word);
    FourReals(v, Two(-e), power, Two(-ge));
  }

  lemma FourReals(a: real, b: real, c: real, d: real)
    ensures (a * b) * (c * d) == (a * c) * (b * d)
  {
    assert (a * b) * (c * d) == ((a * b) * c) * d;
    assert (a * c) * (b * d) == ((a * c) * b) * d;
    assert (a * b) * c == (a * c) * b;
  }

  /** Dropping low bits of the significand: one more eighth for the error, a whole unit for the bits. */
  lemma DropNear(v: real, f: nat, e: int, err: nat, s: nat)
    requires StrictlyNear(v, f, e, err)
    ensures StrictlyNear(v, f / Pow(2, s), e + s, err / Pow(2, s) + 1 + 8)
  {
    hide Two, Pow;
    var k := Pow(2, s);
    ScaleDown(v, e, s);
    var x, q, lost, small := v * Two(-(e + s)), f / k, f % k, err / k;
    CastQuotient(f, k);
    CastQuotient(err, k);
    DropAlgebra(x, q as real, lost as real, k as real, err as real, small as real);
  }

  lemma ScaleDown(v: real, e: int, s: nat)
    ensures (v * Two(-(e + s))) * (Pow(2, s) as real) == v * Two(-e)
  {
    hide Two, Pow;
    TwoAdd(-(e + s), s);
    TwoIsPow(s);
    assert (v * Two(-(e + s))) * Two(s) == v * (Two(-(e + s)) * Two(s));
  }

  lemma CastQuotient(f: nat, k: nat)
    requires k > 0
    ensures f as real == ((f / k) as real) * (k as real) + ((f % k) as real)
    ensures 0.0 <= (f % k) as real < k as real
    ensures (f as real) < ((f / k) as real + 1.0) * (k as real)
  {
    var q := f / k;
    CastProduct(q, k);
    assert f == q * k + f % k;
    assert (q as real + 1.0) * (k as real) == (q as real) * (k as real) + k as real;
  }

  lemma DistributeR(x: real, y: real, k: real)
    ensures (x - y) * k == x * k - y * k && (y - x) * k == y * k - x * k
    ensures (x + y) * k == x * k + y * k
  {
  }

  lemma DropAlgebra(x: real, q: real, lost: real, k: real, err: real, small: real)
    requires k > 0.0 && 0.0 <= lost < k && err < (small + 1.0) * k
    requires -err < 8.0 * (x * k) - 8.0 * (q * k + lost) < err
    ensures -(small + 9.0) < 8.0 * x - 8.0 * q < small + 9.0
  {
    DistributeR(x, q, k);
    DistributeR(small + 1.0, 8.0, k);
    EighthsBelow(x - q, small + 9.0, k);
    EighthsBelow(q - x, small + 9.0, k);
  }

  lemma EighthsBelow(y: real, m: real, k: real)
    requires k > 0.0 && 8.0 * (y * k) < m * k
    ensures 8.0 * y < m
  {
    Eightfold(y, k);
    if m <= 8.0 * y {
      MonotoneR(m, 8.0 * y, k);
    }
  }

  lemma Eightfold(y: real, k: real)
    ensures (8.0 * y) * k == 8.0 * (y * k)
  {
  }
}
