/** Powers of two and ten with exponents of either sign, as real numbers. */
module Reals {
  import opened Arithmetic

  function PowR(b: real, n: nat): (r: real)
    requires b > 0.0
    ensures r > 0.0
  {
    if n == 0 then 1.0 else b * PowR(b, n - 1)
  }

  function Two(e: int): (r: real)
    ensures r > 0.0
  {
    if e >= 0 then PowR(2.0, e) else 1.0 / PowR(2.0, -e)
  }

  function TenR(p: int): (r: real)
    ensures r > 0.0
  {
    if p >= 0 then PowR(10.0, p) else 1.0 / PowR(10.0, -p)
  }

  lemma {:induction false} TwoNext(e: int)
    ensures Two(e + 1) == 2.0 * Two(e)
  {
    if e < 0 {
      var x := PowR(2.0, -e - 1);
      assert PowR(2.0, -e) == 2.0 * x;
      assert 1.0 / (2.0 * x) == (1.0 / x) / 2.0;
    }
  }

  lemma {:induction false} TwoAdd(a: int, b: int)
    ensures Two(a + b) == Two(a) * Two(b)
    decreases if b >= 0 then b else -b
  {
    hide Two;
    if b > 0 {
      TwoAdd(a, b - 1);
      TwoNext(a + b - 1);
      TwoNext(b - 1);
      Move(Two(a), 2.0, Two(b - 1));
    } else if b < 0 {
      TwoAdd(a, b + 1);
      TwoNext(a + b);
      TwoNext(b);
      Move(Two(a), 2.0, Two(b));
    } else {
      TwoZero();
    }
  }

  lemma TwoZero()
    ensures Two(0) == 1.0
  {
  }

  lemma {:induction false} TenNext(e: int)
    ensures TenR(e + 1) == 10.0 * TenR(e)
  {
    if e < 0 {
      var x := PowR(10.0, -e - 1);
      assert PowR(10.0, -e) == 10.0 * x;
      assert 1.0 / (10.0 * x) == (1.0 / x) / 10.0;
    }
  }

  lemma {:induction false} TenAdd(a: int, b: int)
    ensures TenR(a + b) == TenR(a) * TenR(b)
    decreases if b >= 0 then b else -b
  {
    hide TenR;
    if b > 0 {
      TenAdd(a, b - 1);
      TenNext(a + b - 1);
      TenNext(b - 1);
      Move(TenR(a), 10.0, TenR(b - 1));
    } else if b < 0 {
      TenAdd(a, b + 1);
      TenNext(a + b);
      TenNext(b);
      Move(TenR(a), 10.0, TenR(b));
    } else {
      TenZero();
    }
  }

  lemma TenZero()
    ensures TenR(0) == 1.0
  {
  }

  lemma Move(x: real, k: real, y: real)
    ensures x * (k * y) == k * (x * y)
  {
  }

  lemma {:induction false} TwoIsPow(n: nat)
    ensures Two(n) == Pow(2, n) as real
  {
    if n > 0 {
      TwoIsPow(n - 1);
      TwoNext(n - 1);
    }
  }

  lemma {:induction false} TenIsPow(n: nat)
    ensures TenR(n) == Pow(10, n) as real
  {
    if n > 0 {
      TenIsPow(n - 1);
      TenNext(n - 1);
    }
  }

  lemma {:induction false} CastProduct(x: int, y: nat)
    ensures (x * y) as real == (x as real) * (y as real)
  {
    if y > 0 {
      CastProduct(x, y - 1);
      assert x * y == x * (y - 1) + x;
    }
  }

  lemma MonotoneR(x: real, y: real, z: real)
    requires x <= y && z >= 0.0
    ensures x * z <= y * z && z * x <= z * y
  {
    assert (y - x) * z >= 0.0;
  }

  lemma StrictR(x: real, y: real, z: real)
    requires x < y && z > 0.0
    ensures x * z < y * z && z * x < z * y
  {
    assert (y - x) * z > 0.0;
  }

  lemma CancelR(x: real, y: real, z: real)
    requires z > 0.0
    ensures x < y <==> x * z < y * z
    ensures x == y <==> x * z == y * z
  {
    if x < y {
      StrictR(x, y, z);
    } else if y < x {
      StrictR(y, x, z);
    }
  }
}
