/** Column-by-column squaring: the columns add up to the square of the number. */
module Comba {
  import opened Arithmetic
  import opened Bigits

  /** The first m products e[i] * e[k - i] of column k. */
  function Pairs(e: seq<Bigit>, k: nat, m: nat): int
    requires m <= k + 1 <= |e|
  {
    if m == 0 then 0 else Pairs(e, k, m - 1) + (e[k - (m - 1)] as int) * e[m - 1]
  }

  /** The first k columns, each with its weight. */
  function Columns(e: seq<Bigit>, k: nat): int
    requires k <= |e|
  {
    if k == 0 then 0 else Columns(e, k - 1) + Pairs(e, k - 1, k) * Weight(k - 1)
  }

  /** The same products row by row: digit i times the digits whose column stays below k. */
  function Rows(e: seq<Bigit>, m: nat, k: nat): int
    requires m <= k <= |e|
  {
    if m == 0 then 0 else Rows(e, m - 1, k) + (e[m - 1] * Weight(m - 1)) * Sum(e, k - (m - 1))
  }

  lemma {:induction false} RowsGrow(e: seq<Bigit>, m: nat, k: nat)
    requires m <= k < |e|
    ensures Rows(e, m, k + 1) == Rows(e, m, k) + Pairs(e, k, m) * Weight(k)
  {
    if m > 0 {
      RowsGrow(e, m - 1, k);
      var i := m - 1;
      WeightAdd(i, k - i);
      RowProduct(e[i], Weight(i), Sum(e, k - i), e[k - i], Weight(k - i), Pairs(e, k, i));
    }
  }

  lemma RowProduct(x: int, wx: int, sum: int, y: int, wy: int, pairs: int)
    ensures (x * wx) * (sum + y * wy) == (x * wx) * sum + (y * x) * (wx * wy)
    ensures (pairs + y * x) * (wx * wy) == pairs * (wx * wy) + (y * x) * (wx * wy)
  {
    assert (x * wx) * (y * wy) == (y * x) * (wx * wy);
  }

  lemma {:induction false} ColumnsAreRows(e: seq<Bigit>, k: nat)
    requires k <= |e|
    ensures Columns(e, k) == Rows(e, k, k)
  {
    if k > 0 {
      var c := k - 1;
      ColumnsAreRows(e, c);
      RowsGrow(e, c, c);
      assert Sum(e, 1) == Sum(e, 0) + e[0] * Weight(0);
      assert Rows(e, k, k) == Rows(e, c, k) + (e[c] * Weight(c)) * Sum(e, k - c);
      RowProduct(e[c], Weight(c), 0, e[0], 1, Pairs(e, c, c));
    }
  }

  lemma {:induction false} FullRows(e: seq<Bigit>, m: nat, n: nat)
    requires m <= n && |e| == 2 * n
    requires forall j :: n <= j < 2 * n ==> e[j] == 0
    ensures Rows(e, m, 2 * n) == Sum(e, m) * Sum(e, n)
  {
    if m > 0 {
      FullRows(e, m - 1, n);
      SumZeroTail(e, n, 2 * n - (m - 1));
      var x := e[m - 1] * Weight(m - 1);
      assert (Sum(e, m - 1) + x) * Sum(e, n) == Sum(e, m - 1) * Sum(e, n) + x * Sum(e, n);
    }
  }

  lemma {:induction false} EmptyRows(e: seq<Bigit>, n: nat, m: nat)
    requires n <= m <= |e|
    requires forall j :: n <= j < |e| ==> e[j] == 0
    ensures Rows(e, m, |e|) == Rows(e, n, |e|)
  {
    if n < m {
      EmptyRows(e, n, m - 1);
    }
  }

  /** All 2n columns of an n-digit number together are its square. */
  lemma ColumnsAreSquare(e: seq<Bigit>, n: nat)
    requires |e| == 2 * n
    requires forall j :: n <= j < 2 * n ==> e[j] == 0
    ensures Columns(e, 2 * n) == Sum(e, n) * Sum(e, n)
  {
    ColumnsAreRows(e, 2 * n);
    EmptyRows(e, n, 2 * n);
    FullRows(e, n, n);
  }

  /** Pairs that reach above the top digit contribute nothing, at either end of a column. */
  lemma {:induction false} PairsFromTop(e: seq<Bigit>, k: nat, n: nat, m: nat)
    requires n <= k < |e| && m <= k - n + 1
    requires forall j :: n <= j < |e| ==> e[j] == 0
    ensures Pairs(e, k, m) == 0
  {
    if m > 0 {
      PairsFromTop(e, k, n, m - 1);
    }
  }

  lemma {:induction false} PairsToTop(e: seq<Bigit>, k: nat, n: nat, m: nat)
    requires n <= m <= k + 1 <= |e|
    requires forall j :: n <= j < |e| ==> e[j] == 0
    ensures Pairs(e, k, m) == Pairs(e, k, n)
  {
    if n < m {
      PairsToTop(e, k, n, m - 1);
    }
  }

  lemma DigitProduct(x: Bigit, y: Bigit)
    ensures 0 <= x * y < 0x100_0000_0000_0000
  {
    MulMonotone(0, x, y);
    MulMonotone(x, BASE - 1, y);
    MulMonotone(y, BASE - 1, BASE - 1);
  }
}
