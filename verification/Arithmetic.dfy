/** Powers and the few products the other modules need spelled out. */
module Arithmetic {

  function Pow(b: nat, e: nat): (p: nat)
    ensures b > 0 ==> p > 0
  {
    if e == 0 then 1 else b * Pow(b, e - 1)
  }

  function Min(a: int, b: int): int {
    if a <= b then a else b
  }

  function Max(a: int, b: int): int {
    if a >= b then a else b
  }

  lemma {:induction false} PowAdd(b: nat, m: nat, n: nat)
    ensures Pow(b, m + n) == Pow(b, m) * Pow(b, n)
  {
    if m == 0 {
    } else {
      PowAdd(b, m - 1, n);
      Associate(b, Pow(b, m - 1), Pow(b, n));
    }
  }

  lemma {:induction false} PowProduct(a: nat, b: nat, n: nat)
    ensures Pow(a * b, n) == Pow(a, n) * Pow(b, n)
  {
    if n == 0 {
    } else {
      PowProduct(a, b, n - 1);
      var x, y := Pow(a, n - 1), Pow(b, n - 1);
      assert (a * b) * (x * y) == (a * x) * (b * y);
    }
  }

  lemma {:induction false} PowOfPow(b: nat, m: nat, n: nat)
    ensures Pow(Pow(b, m), n) == Pow(b, m * n)
  {
    if n == 0 {
      assert m * n == 0;
    } else {
      PowOfPow(b, m, n - 1);
      PowAdd(b, m, m * (n - 1));
      assert m + m * (n - 1) == m * n;
    }
  }

  lemma {:induction false} PowMonotone(b: nat, m: nat, n: nat)
    requires b >= 1 && m <= n
    ensures Pow(b, m) <= Pow(b, n)
  {
    if m < n {
      PowMonotone(b, m, n - 1);
      MulMonotone(1, b, Pow(b, n - 1));
    }
  }

  lemma {:induction false} PowStrict(b: nat, m: nat, n: nat)
    requires b >= 2 && m < n
    ensures Pow(b, m) < Pow(b, n)
  {
    PowMonotone(b, m + 1, n);
    MulMonotone(2, b, Pow(b, m));
  }

  lemma {:induction false} PowBaseMonotone(a: nat, b: nat, n: nat)
    requires a <= b
    ensures Pow(a, n) <= Pow(b, n)
  {
    if n > 0 {
      PowBaseMonotone(a, b, n - 1);
      MulMonotone(a, b, Pow(a, n - 1));
      MulMonotone(Pow(a, n - 1), Pow(b, n - 1), b);
    }
  }

  lemma MulMonotone(x: int, y: int, z: int)
    requires x <= y && z >= 0
    ensures x * z <= y * z && z * x <= z * y
  {
    assert (y - x) * z >= 0;
  }

  lemma MulStrict(x: int, y: int, z: int)
    requires x < y && z > 0
    ensures x * z < y * z && z * x < z * y
  {
    assert (y - x) * z > 0;
  }

  /** Cancelling a positive factor from a comparison. */
  lemma MulCancel(x: int, y: int, z: int)
    requires z > 0
    ensures x < y <==> x * z < y * z
    ensures x <= y <==> x * z <= y * z
    ensures x == y <==> x * z == y * z
  {
    if x < y {
      MulStrict(x, y, z);
    } else if y < x {
      MulStrict(y, x, z);
    }
  }

  lemma Associate(a: int, b: int, c: int)
    ensures a * b * c == a * (b * c)
  {
  }

  lemma Distribute(x: int, y: int, z: int)
    ensures (x + y) * z == x * z + y * z
    ensures (x - y) * z == x * z - y * z
  {
  }

  lemma Regroup(a: int, b: int, c: int, d: int)
    ensures (a * b) * (c * d) == (a * c) * (b * d)
  {
    assert (a * b) * (c * d) == ((a * c) * b) * d;
  }

  function Sign(x: int): int {
    if x < 0 then -1 else if x == 0 then 0 else 1
  }

  lemma One()
    ensures Pow(2, 0) == 1 && Pow(10, 0) == 1 && Pow(2, 1) == 2
  {
  }

  lemma TenMore(k: nat)
    ensures Pow(10, k + 1) == 10 * Pow(10, k)
  {
  }

  lemma TenTo4()
    ensures Pow(10, 4) == 10000
  {
  }

  lemma TenTo16()
    ensures Pow(10, 8) == 1_0000_0000 && Pow(10, 16) == 1_0000_0000_0000_0000
  {
    hide Pow;
    TenTo4();
    PowAdd(10, 4, 4);
    PowAdd(10, 8, 8);
  }

  lemma TwoTo8()
    ensures Pow(2, 8) == 256
  {
  }

  lemma TwoTo64()
    ensures Pow(2, 16) == 0x1_0000 && Pow(2, 32) == 0x1_0000_0000 && Pow(2, 64) == 0x1_0000_0000_0000_0000
  {
    hide Pow;
    TwoTo8();
    PowAdd(2, 8, 8);
    PowAdd(2, 16, 16);
    PowAdd(2, 32, 32);
  }

  lemma HalfOf(k: nat)
    requires k > 0
    ensures Pow(2, k) == 2 * Pow(2, k - 1)
  {
  }

  /** Euclid's division, for a quotient and a remainder that fit. */
  lemma DivIs(x: nat, d: nat, q: nat, r: nat)
    requires d > 0 && x == q * d + r && r < d
    ensures x / d == q && x % d == r
  {
    var y: nat := x / d;
    Distribute(y, 1, d);
    Distribute(q, 1, d);
    MulCancel(y, q + 1, d);
    MulCancel(q, y + 1, d);
  }
}
