/** Why the reader is right just above half the smallest denormal, where its error count alone would not do:
    the table's first entry, and the rounding of the products, happen to be good enough. */
module SmallestDenormal {
  import opened Arithmetic
  import opened Deciding
  import opened DiyFps
  import opened Intervals
  import opened Reals

  /** The first 19 digits of 2^-1075, and the cached power for 10^-348. */
  const LEADING: int := 2470328229206232720
  const FIRST_POWER: int := 0xfa8f_d5a0_081c_0288
  const MILLION: int := 0xf424_0000_0000_0000

  lemma Combine(b: nat, m: nat, n: nat, x: int, y: int)
    requires Pow(b, m) == x && Pow(b, n) == y
    ensures Pow(b, m + n) == x * y
  {
    PowAdd(b, m, n);
  }

  lemma First()
    ensures Pow(2, 1) == 2 && Pow(10, 1) == 10
  {
  }

  /** The four comparisons that place 2^-1075 among the decimals, by repeated squaring. */
  lemma Powers()
    ensures 10 * Pow(10, 342) > (10 * LEADING + 8) * Pow(2, 1075)
    ensures (WORD + 25) * Pow(10, 342) < (LEADING + 5) * Pow(2, 1139)
    ensures Pow(10, 324) >= Pow(2, 1075)
    ensures Pow(2, 1139) >= (WORD + 25) * Pow(10, 323)
  {
    hide Pow;
    First();
    var t1, u1 := 10, 2;
    Combine(10, 1, 1, t1, t1);
    var t2 := t1 * t1;
    Combine(10, 2, 2, t2, t2);
    var t4 := t2 * t2;
    Combine(10, 4, 4, t4, t4);
    var t8 := t4 * t4;
    Combine(10, 8, 1, t8, t1);
    var t9 := t8 * t1;
    Combine(10, 9, 9, t9, t9);
    var t18 := t9 * t9;
    Combine(10, 18, 1, t18, t1);
    var t19 := t18 * t1;
    Combine(10, 19, 1, t19, t1);
    var t20 := t19 * t1;
    Combine(10, 20, 20, t20, t20);
    var t40 := t20 * t20;
    Combine(10, 40, 40, t40, t40);
    var t80 := t40 * t40;
    Combine(10, 80, 80, t80, t80);
    var t160 := t80 * t80;
    Combine(10, 160, 1, t160, t1);
    var t161 := t160 * t1;
    Combine(10, 161, 161, t161, t161);
    var t322 := t161 * t161;
    Combine(10, 322, 1, t322, t1);
    var t323 := t322 * t1;
    Combine(10, 323, 1, t323, t1);
    var t324 := t323 * t1;
    Combine(10, 323, 19, t323, t19);
    var t342 := t323 * t19;
    Combine(2, 1, 1, u1, u1);
    var u2 := u1 * u1;
    Combine(2, 2, 2, u2, u2);
    var u4 := u2 * u2;
    Combine(2, 4, 4, u4, u4);
    var u8 := u4 * u4;
    Combine(2, 8, 8, u8, u8);
    var u16 := u8 * u8;
    Combine(2, 16, 16, u16, u16);
    var u32 := u16 * u16;
    Combine(2, 32, 1, u32, u1);
    var u33 := u32 * u1;
    Combine(2, 32, 32, u32, u32);
    var u64 := u32 * u32;
    Combine(2, 33, 33, u33, u33);
    var u66 := u33 * u33;
    Combine(2, 66, 1, u66, u1);
    var u67 := u66 * u1;
    Combine(2, 67, 67, u67, u67);
    var u134 := u67 * u67;
    Combine(2, 134, 134, u134, u134);
    var u268 := u134 * u134;
    Combine(2, 268, 268, u268, u268);
    var u536 := u268 * u268;
    Combine(2, 536, 1, u536, u1);
    var u537 := u536 * u1;
    Combine(2, 537, 537, u537, u537);
    var u1074 := u537 * u537;
    Combine(2, 1074, 1, u1074, u1);
    var u1075 := u1074 * u1;
    Combine(2, 1075, 64, u1075, u64);
    var u1139 := u1075 * u64;
  }

  /** m * 10^-n against c * 2^-j, in integers. */
  lemma SidesOf(m: nat, n: nat, c: nat, j: nat)
    ensures Exact(m, -(n as int)) > (c as real) * Two(-(j as int)) <==> m * Pow(2, j) > c * Pow(10, n)
    ensures Exact(m, -(n as int)) < (c as real) * Two(-(j as int)) <==> m * Pow(2, j) < c * Pow(10, n)
  {
    hide Pow, TenR, Two;
    var p, e: int := -(n as int), -(j as int);
    var x, y := Pow(10, n), Pow(2, j);
    TenIsPow(n);
    TwoIsPow(j);
    TenAdd(p, n);
    TwoAdd(e, j);
    TenZero();
    TwoZero();
    CastProduct(m, y);
    CastProduct(c, x);
    var v, w, k := Exact(m, p), (c as real) * Two(e), (x as real) * (y as real);
    assert v * k == (m as real) * (y as real) by {
      assert ((m as real) * TenR(p)) * ((x as real) * (y as real)) == ((m as real) * (y as real)) * (TenR(p) * (x as real));
    }
    assert w * k == (c as real) * (x as real) by {
      assert ((c as real) * Two(e)) * ((x as real) * (y as real)) == ((c as real) * (x as real)) * (Two(e) * (y as real));
    }
    CancelR(v, w, k);
    CancelR(w, v, k);
  }

  /** A number of n digits, all that is needed being just above 2^-1075: its leading digits are known. */
  lemma LeadingDigits(m: nat, n: nat, q: nat)
    requires n > 0 && Pow(10, n - 1) <= m < Pow(10, n)
    requires m * Pow(2, 1075) > Pow(10, q) && m * Pow(2, 1139) < (WORD + 25) * Pow(10, q)
    ensures q == n + 323 && n >= 19
    ensures 10 * m > (10 * LEADING + 8) * Pow(10, n - 19) && m < (LEADING + 5) * Pow(10, n - 19)
  {
    hide Pow;
    Powers();
    Magnitude(m, n, q);
    if n < 19 {
      PowAdd(10, q, 19 - n);
      MultipleOfTen(m, 19 - n);
      BringUp(m, Pow(10, 19 - n), Pow(10, q), Pow(2, 1075), Pow(2, 1139), WORD + 25);
      var x := m * Pow(10, 19 - n);
      AgainstLower(x, 1, Pow(10, 342), Pow(2, 1075), 10 * LEADING + 8);
      AgainstUpper(x, 1, Pow(10, 342), Pow(2, 1139), WORD + 25, LEADING + 5);
      assert false;
    } else {
      var s := Pow(10, n - 19);
      PowAdd(10, 342, n - 19);
      AgainstLower(m, s, Pow(10, 342), Pow(2, 1075), 10 * LEADING + 8);
      AgainstUpper(m, s, Pow(10, 342), Pow(2, 1139), WORD + 25, LEADING + 5);
    }
  }

  lemma Magnitude(m: nat, n: nat, q: nat)
    requires n > 0 && Pow(10, n - 1) <= m < Pow(10, n)
    requires m * Pow(2, 1075) > Pow(10, q) && m * Pow(2, 1139) < (WORD + 25) * Pow(10, q)
    ensures q == n + 323
  {
    hide Pow;
    Powers();
    var a, b := Pow(2, 1075), Pow(2, 1139);
    if q >= n + 324 {
      PowMonotone(10, n + 324, q);
      PowAdd(10, n, 324);
      MulMonotone(a, Pow(10, 324), Pow(10, n));
      MulStrict(m, Pow(10, n), a);
    } else if q <= n + 322 {
      PowMonotone(10, q, n + 322);
      PowAdd(10, n - 1, 323);
      MulMonotone(Pow(10, n - 1), m, b);
      Rotate(WORD + 25, Pow(10, 323), Pow(10, n - 1));
      MulMonotone((WORD + 25) * Pow(10, 323), b, Pow(10, n - 1));
    }
  }

  lemma Rotate(c: int, x: int, y: int)
    ensures (c * x) * y == c * (y * x)
  {
  }

  lemma AgainstUpper(m: nat, s: nat, t: nat, b: nat, w: nat, l: nat)
    requires s > 0 && b > 0 && m * b < w * (t * s) && w * t < l * b
    ensures m < l * s
  {
    MulStrict(w * t, l * b, s);
    Rotate(w, t, s);
    assert w * (t * s) == w * (s * t);
    Rotate2(l, b, s);
    MulCancel(m, l * s, b);
  }

  lemma Rotate2(l: int, b: int, s: int)
    ensures (l * b) * s == (l * s) * b
  {
  }

  lemma AgainstLower(m: nat, s: nat, t: nat, a: nat, k: nat)
    requires s > 0 && a > 0 && m * a > t * s && 10 * t > k * a
    ensures 10 * m > k * s
  {
    MulStrict(k * a, 10 * t, s);
    Rotate2(k, a, s);
    assert (10 * t) * s == 10 * (t * s) && (10 * m) * a == 10 * (m * a);
    MulCancel(k * s, 10 * m, a);
  }

  lemma BringUp(m: nat, k: nat, t: nat, a: nat, b: nat, w: nat)
    requires k > 0 && m * a > t && m * b < w * t
    ensures (m * k) * a > t * k && (m * k) * b < w * (t * k)
  {
    MulStrict(t, m * a, k);
    MulStrict(m * b, w * t, k);
    Rotate2(m, a, k);
    Rotate2(m, b, k);
    Rotate(w, t, k);
    assert w * (k * t) == w * (t * k);
  }

  lemma MultipleOfTen(m: nat, k: nat)
    requires k > 0
    ensures (m * Pow(10, k)) % 10 == 0
  {
    assert m * (10 * Pow(10, k - 1)) == 10 * (m * Pow(10, k - 1));
  }

  /** The first entry is within half a unit in the last place. */
  lemma FirstPowerIsClose()
    ensures -(Pow(10, 348) as int) <= 2 * Pow(2, 1220) - 2 * (FIRST_POWER * Pow(10, 348)) <= Pow(10, 348)
  {
    hide Pow;
    First();
    var t1, u1 := 10, 2;
    Combine(10, 1, 1, t1, t1);
    var t2 := t1 * t1;
    Combine(10, 2, 1, t2, t1);
    var t3 := t2 * t1;
    Combine(10, 3, 2, t3, t2);
    var t5 := t3 * t2;
    Combine(10, 5, 5, t5, t5);
    var t10 := t5 * t5;
    Combine(10, 10, 1, t10, t1);
    var t11 := t10 * t1;
    Combine(10, 11, 10, t11, t10);
    var t21 := t11 * t10;
    Combine(10, 21, 1, t21, t1);
    var t22 := t21 * t1;
    Combine(10, 22, 21, t22, t21);
    var t43 := t22 * t21;
    Combine(10, 43, 43, t43, t43);
    var t86 := t43 * t43;
    Combine(10, 86, 1, t86, t1);
    var t87 := t86 * t1;
    Combine(10, 87, 87, t87, t87);
    var t174 := t87 * t87;
    Combine(10, 174, 174, t174, t174);
    var t348 := t174 * t174;
    Combine(2, 1, 1, u1, u1);
    var u2 := u1 * u1;
    Combine(2, 2, 2, u2, u2);
    var u4 := u2 * u2;
    Combine(2, 4, 4, u4, u4);
    var u8 := u4 * u4;
    Combine(2, 8, 1, u8, u1);
    var u9 := u8 * u1;
    Combine(2, 9, 9, u9, u9);
    var u18 := u9 * u9;
    Combine(2, 18, 1, u18, u1);
    var u19 := u18 * u1;
    Combine(2, 19, 19, u19, u19);
    var u38 := u19 * u19;
    Combine(2, 38, 38, u38, u38);
    var u76 := u38 * u38;
    Combine(2, 76, 76, u76, u76);
    var u152 := u76 * u76;
    Combine(2, 152, 152, u152, u152);
    var u304 := u152 * u152;
    Combine(2, 304, 1, u304, u1);
    var u305 := u304 * u1;
    Combine(2, 305, 305, u305, u305);
    var u610 := u305 * u305;
    Combine(2, 610, 610, u610, u610);
    var u1220 := u610 * u610;
  }

  /** A decimal above 2^-1075 that is less than 2^64 + 1/8 times 2^-1139. */
  const JUST_ABOVE: nat := 2470328229206232720883

  lemma JustAboveHalf()
    ensures JUST_ABOVE * Pow(2, 1075) > Pow(10, 345)
    ensures JUST_ABOVE * Pow(2, 1142) < (8 * WORD + 1) * Pow(10, 345)
  {
    hide Pow;
    First();
    var t1, u1 := 10, 2;
    Combine(10, 1, 1, t1, t1);
    var t2 := t1 * t1;
    Combine(10, 2, 2, t2, t2);
    var t4 := t2 * t2;
    Combine(10, 4, 1, t4, t1);
    var t5 := t4 * t1;
    Combine(10, 5, 5, t5, t5);
    var t10 := t5 * t5;
    Combine(10, 10, 10, t10, t10);
    var t20 := t10 * t10;
    Combine(10, 20, 1, t20, t1);
    var t21 := t20 * t1;
    Combine(10, 21, 21, t21, t21);
    var t42 := t21 * t21;
    Combine(10, 42, 1, t42, t1);
    var t43 := t42 * t1;
    Combine(10, 43, 43, t43, t43);
    var t86 := t43 * t43;
    Combine(10, 86, 86, t86, t86);
    var t172 := t86 * t86;
    Combine(10, 172, 172, t172, t172);
    var t344 := t172 * t172;
    Combine(10, 344, 1, t344, t1);
    var t345 := t344 * t1;
    Combine(2, 1, 1, u1, u1);
    var u2 := u1 * u1;
    Combine(2, 2, 2, u2, u2);
    var u4 := u2 * u2;
    Combine(2, 4, 4, u4, u4);
    var u8 := u4 * u4;
    Combine(2, 8, 8, u8, u8);
    var u16 := u8 * u8;
    Combine(2, 16, 16, u16, u16);
    var u32 := u16 * u16;
    Combine(2, 32, 1, u32, u1);
    var u33 := u32 * u1;
    Combine(2, 33, 33, u33, u33);
    var u66 := u33 * u33;
    Combine(2, 66, 1, u66, u1);
    var u67 := u66 * u1;
    Combine(2, 67, 67, u67, u67);
    var u134 := u67 * u67;
    Combine(2, 134, 134, u134, u134);
    var u268 := u134 * u134;
    Combine(2, 268, 268, u268, u268);
    var u536 := u268 * u268;
    Combine(2, 536, 1, u536, u1);
    var u537 := u536 * u1;
    Combine(2, 537, 537, u537, u537);
    var u1074 := u537 * u537;
    Combine(2, 1074, 1, u1074, u1);
    var u1075 := u1074 * u1;
    Combine(2, 1075, 67, u1075, u67);
    var u1142 := u1075 * u67;
  }

  /** 10^309 is beyond the largest double. */
  lemma LargestPower()
    ensures Pow(10, 309) >= Pow(2, 1024)
  {
    hide Pow;
    First();
    var t1, u1 := 10, 2;
    Combine(10, 1, 1, t1, t1);
    var t2 := t1 * t1;
    Combine(10, 2, 2, t2, t2);
    var t4 := t2 * t2;
    Combine(10, 4, 4, t4, t4);
    var t8 := t4 * t4;
    Combine(10, 8, 1, t8, t1);
    var t9 := t8 * t1;
    Combine(10, 9, 9, t9, t9);
    var t18 := t9 * t9;
    Combine(10, 18, 1, t18, t1);
    var t19 := t18 * t1;
    Combine(10, 19, 19, t19, t19);
    var t38 := t19 * t19;
    Combine(10, 38, 38, t38, t38);
    var t76 := t38 * t38;
    Combine(10, 76, 1, t76, t1);
    var t77 := t76 * t1;
    Combine(10, 77, 77, t77, t77);
    var t154 := t77 * t77;
    Combine(10, 154, 154, t154, t154);
    var t308 := t154 * t154;
    Combine(10, 308, 1, t308, t1);
    var t309 := t308 * t1;
    Combine(2, 1, 1, u1, u1);
    var u2 := u1 * u1;
    Combine(2, 2, 2, u2, u2);
    var u4 := u2 * u2;
    Combine(2, 4, 4, u4, u4);
    var u8 := u4 * u4;
    Combine(2, 8, 8, u8, u8);
    var u16 := u8 * u8;
    Combine(2, 16, 16, u16, u16);
    var u32 := u16 * u16;
    Combine(2, 32, 32, u32, u32);
    var u64 := u32 * u32;
    Combine(2, 64, 64, u64, u64);
    var u128 := u64 * u64;
    Combine(2, 128, 128, u128, u128);
    var u256 := u128 * u128;
    Combine(2, 256, 256, u256, u256);
    var u512 := u256 * u256;
    Combine(2, 512, 512, u512, u512);
    var u1024 := u512 * u512;
  }
}
