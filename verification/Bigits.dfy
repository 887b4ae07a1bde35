/** The numbers that runs of 28-bit digits ("bigits") stand for, least significant digit first. */
module Bigits {
  import opened Arithmetic

  const BIGIT_SIZE: nat := 28
  const BASE: int := 0x1000_0000
  const CAPACITY: nat := 128

  type Bigit = x: int | 0 <= x < BASE

  /** The machine words: a bigit lives in a 32-bit chunk, products in a 64-bit double chunk. */
  const CHUNK: int := 0x1_0000_0000
  const DOUBLE_CHUNK: int := 0x1_0000_0000_0000_0000

  /** The weight of digit i, i.e. 2^(28 i). */
  function Weight(i: nat): (w: nat)
    ensures w > 0
  {
    if i == 0 then 1 else BASE * Weight(i - 1)
  }

  /** m above e hidden zero digits, i.e. m * Weight(e), built up one digit at a time. */
  function Scaled(m: nat, e: nat): nat {
    if e == 0 then m else BASE * Scaled(m, e - 1)
  }

  /** The number made of the n lowest digits of s. */
  function Sum(s: seq<Bigit>, n: nat): nat
    requires n <= |s|
  {
    if n == 0 then 0 else Sum(s, n - 1) + s[n - 1] * Weight(n - 1)
  }

  lemma {:induction false} WeightAdd(i: nat, j: nat)
    ensures Weight(i + j) == Weight(i) * Weight(j)
  {
    if i > 0 {
      WeightAdd(i - 1, j);
    }
  }

  lemma WeightStep(i: nat)
    ensures Weight(i + 1) == BASE * Weight(i)
  {
  }

  lemma {:induction false} WeightMonotone(i: nat, j: nat)
    requires i <= j
    ensures Weight(i) <= Weight(j)
  {
    if i < j {
      WeightMonotone(i, j - 1);
    }
  }

  lemma {:induction false} WeightIsPowerOfTwo(i: nat)
    ensures Weight(i) == Pow(2, 28 * i)
  {
    if i > 0 {
      WeightIsPowerOfTwo(i - 1);
      PowAdd(2, 28, 28 * (i - 1));
      PowAdd(2, 7, 7);
      PowAdd(2, 14, 14);
    }
  }

  lemma {:induction false} ScaledIsProduct(m: nat, e: nat)
    ensures Scaled(m, e) == m * Weight(e)
  {
    if e > 0 {
      ScaledIsProduct(m, e - 1);
    }
  }

  lemma {:induction false} SumAgree(s: seq<Bigit>, t: seq<Bigit>, n: nat)
    requires n <= |s| && n <= |t|
    requires forall i :: 0 <= i < n ==> s[i] == t[i]
    ensures Sum(s, n) == Sum(t, n)
  {
    if n > 0 {
      SumAgree(s, t, n - 1);
    }
  }

  lemma {:induction false} SumBound(s: seq<Bigit>, n: nat)
    requires n <= |s|
    ensures Sum(s, n) < Weight(n)
  {
    if n > 0 {
      SumBound(s, n - 1);
      MulMonotone(s[n - 1], BASE - 1, Weight(n - 1));
    }
  }

  lemma {:induction false} SumZeroTail(s: seq<Bigit>, n: nat, m: nat)
    requires n <= m <= |s|
    requires forall i :: n <= i < m ==> s[i] == 0
    ensures Sum(s, m) == Sum(s, n)
  {
    if n < m {
      SumZeroTail(s, n, m - 1);
    }
  }

  lemma {:induction false} SumMonotone(s: seq<Bigit>, n: nat, m: nat)
    requires n <= m <= |s|
    ensures Sum(s, n) <= Sum(s, m)
  {
    if n < m {
      SumMonotone(s, n, m - 1);
      MulMonotone(0, s[m - 1], Weight(m - 1));
    }
  }

  /** d zero digits followed by s's n lowest digits stand for Sum(s, n) * Weight(d). */
  lemma {:induction false} SumShift(s: seq<Bigit>, n: nat, t: seq<Bigit>, d: nat)
    requires n <= |s| && n + d <= |t|
    requires forall i :: 0 <= i < d ==> t[i] == 0
    requires forall i :: d <= i < n + d ==> t[i] == s[i - d]
    ensures Sum(t, n + d) == Sum(s, n) * Weight(d)
  {
    if n == 0 {
      SumZeroTail(t, 0, d);
    } else {
      SumShift(s, n - 1, t, d);
      assert t[n - 1 + d] == s[n - 1];
      ShiftedDigit(Sum(s, n - 1), s[n - 1], n - 1, d);
    }
  }

  /** One more digit of a number that is read d places up. */
  lemma ShiftedDigit(sum: nat, digit: Bigit, i: nat, d: nat)
    ensures (sum + digit * Weight(i)) * Weight(d) == sum * Weight(d) + digit * Weight(i + d)
  {
    WeightAdd(i, d);
    assert (digit * Weight(i)) * Weight(d) == digit * (Weight(i) * Weight(d));
  }

  /** Writing a column total at digit i: the low bigit stays, the rest is the carry for digit i + 1. */
  lemma StoreDigit(before: seq<Bigit>, after: seq<Bigit>, i: nat, total: nat)
    requires i < |before| == |after| && after == before[i := after[i]] && after[i] == total % BASE
    ensures Sum(after, i + 1) + (total / BASE) * Weight(i + 1) == Sum(before, i) + total * Weight(i)
  {
    SumAgree(before, after, i);
    var w := Weight(i);
    assert total == total % BASE + (total / BASE) * BASE;
    assert ((total / BASE) * BASE) * w == (total / BASE) * (BASE * w);
  }

  /** One column of a product: digit i of b0 times factor, plus the carry from below. */
  lemma MultiplyStep(before: seq<Bigit>, after: seq<Bigit>, b0: seq<Bigit>, i: nat,
                     factor: nat, carry: nat, total: nat)
    requires i < |before| == |b0| == |after| && total == factor * b0[i] + carry
    requires after == before[i := after[i]] && after[i] == total % BASE
    requires Sum(before, i) + carry * Weight(i) == Sum(b0, i) * factor
    ensures Sum(after, i + 1) + (total / BASE) * Weight(i + 1) == Sum(b0, i + 1) * factor
  {
    StoreDigit(before, after, i, total);
    ProductColumn(Sum(b0, i), factor, b0[i], carry, Weight(i));
  }

  lemma ProductColumn(sum: int, factor: int, digit: int, carry: int, w: int)
    ensures sum * factor + (factor * digit + carry) * w == (sum + digit * w) * factor + carry * w
  {
    assert (factor * digit + carry) * w == (factor * digit) * w + carry * w;
    assert (factor * digit) * w == (digit * w) * factor;
  }

  /** Writing a column difference y at digit i, where y == keep - borrow * 2^28. */
  lemma StoreDifference(before: seq<Bigit>, after: seq<Bigit>, i: nat, y: int, keep: Bigit, borrow: nat)
    requires i < |before| && after == before[i := keep]
    requires keep - borrow * BASE == y
    ensures Sum(after, i + 1) - borrow * Weight(i + 1) == Sum(before, i) + y * Weight(i)
  {
    SumAgree(before, after, i);
    var w := Weight(i);
    assert (borrow * BASE) * w == borrow * (BASE * w);
    assert y * w == keep * w - (borrow * BASE) * w;
  }

  /** What SubtractTimes keeps of a column: the low bigit, and a borrow from both word parts. */
  lemma WrappedColumn(digit: Bigit, remove: nat)
    ensures var d := (digit - remove % BASE) % CHUNK;
            0 <= d < CHUNK && d % BASE - (d / 0x8000_0000 + remove / BASE) * BASE == digit - remove
  {
    WrappedDifference(digit - remove % BASE);
  }

  /** What a wrapped 32-bit subtraction leaves in the bigit and in the sign bit. */
  lemma WrappedDifference(y: int)
    requires -BASE <= y < BASE
    ensures var d := y % CHUNK;
            d % BASE - (d / 0x8000_0000) * BASE == y && 0 <= d / 0x8000_0000 <= 1
  {
    if y >= 0 {
      assert y % CHUNK == y;
    } else {
      assert y % CHUNK == y + CHUNK;
    }
  }

  /** Numbers of equal length that agree above digit i are ordered by digit i. */
  lemma {:induction false} HigherDigitDecides(s: seq<Bigit>, t: seq<Bigit>, i: nat, n: nat)
    requires i < n <= |s| && n <= |t|
    requires forall j :: i < j < n ==> s[j] == t[j]
    requires s[i] < t[i]
    ensures Sum(s, n) < Sum(t, n)
  {
    if n == i + 1 {
      SumBound(s, i);
      var w := Weight(i);
      MulMonotone(s[i] + 1, t[i], w);
      assert (s[i] + 1) * w == s[i] * w + w;
      assert Sum(s, n) == Sum(s, i) + s[i] * w;
    } else {
      HigherDigitDecides(s, t, i, n - 1);
    }
  }

  /** The digits of a number that has d zero digits below s and reaches up to place n. */
  function Padded(s: seq<Bigit>, d: nat, n: nat): (t: seq<Bigit>)
    requires |s| + d <= n
    ensures |t| == n
    ensures forall i :: 0 <= i < n ==> t[i] == if d <= i < |s| + d then s[i - d] else 0
  {
    seq(d, _ => 0) + s + seq(n - d - |s|, _ => 0)
  }

  lemma PaddedSum(s: seq<Bigit>, d: nat, n: nat)
    requires |s| + d <= n
    ensures Sum(Padded(s, d, n), n) == Sum(s, |s|) * Weight(d)
  {
    var t := Padded(s, d, n);
    SumZeroTail(t, |s| + d, n);
    SumShift(s, |s|, t, d);
  }

  /** The signed excess of c over a + b in the digits from i upwards, in units of Weight(i). */
  function Excess(a: seq<Bigit>, b: seq<Bigit>, c: seq<Bigit>, i: nat): int
    requires i <= |a| == |b| == |c|
    decreases |a| - i
  {
    if i == |a| then 0 else Excess(a, b, c, i + 1) * BASE + c[i] - a[i] - b[i]
  }

  lemma ExcessTop(a: seq<Bigit>, b: seq<Bigit>, c: seq<Bigit>)
    requires |a| == |b| == |c|
    ensures Excess(a, b, c, |a|) == 0
  {
  }

  lemma ExcessNext(a: seq<Bigit>, b: seq<Bigit>, c: seq<Bigit>, i: nat)
    requires i < |a| == |b| == |c|
    ensures Excess(a, b, c, i) == Excess(a, b, c, i + 1) * BASE + c[i] - a[i] - b[i]
  {
  }

  lemma {:induction false} ExcessSplits(a: seq<Bigit>, b: seq<Bigit>, c: seq<Bigit>, i: nat)
    requires i <= |a| == |b| == |c|
    ensures Sum(c, |c|) - Sum(a, |a|) - Sum(b, |b|)
         == Excess(a, b, c, i) * Weight(i) + Sum(c, i) - Sum(a, i) - Sum(b, i)
    decreases |a| - i
  {
    if i < |a| {
      ExcessSplits(a, b, c, i + 1);
      var e, w := Excess(a, b, c, i + 1), Weight(i);
      ExcessStep(e, c[i], a[i], b[i], w);
    }
  }

  lemma ExcessStep(e: int, x: int, y: int, z: int, w: int)
    ensures (e * BASE + x - y - z) * w == e * (BASE * w) + x * w - y * w - z * w
  {
  }

  /** A negative excess cannot be made up below, nor can an excess of two or more be used up. */
  lemma ExcessDecides(a: seq<Bigit>, b: seq<Bigit>, c: seq<Bigit>, i: nat)
    requires i <= |a| == |b| == |c|
    ensures Excess(a, b, c, i) < 0 ==> Sum(a, |a|) + Sum(b, |b|) > Sum(c, |c|)
    ensures Excess(a, b, c, i) > 1 ==> Sum(a, |a|) + Sum(b, |b|) < Sum(c, |c|)
  {
    ExcessSplits(a, b, c, i);
    SumBound(a, i);
    SumBound(b, i);
    SumBound(c, i);
    var e, w := Excess(a, b, c, i), Weight(i);
    if e < 0 {
      MulMonotone(e, -1, w);
    } else if e > 1 {
      MulMonotone(2, e, w);
    }
  }

  /** With only zero digits below place i, the excess has the sign of c - (a + b). */
  lemma ExcessAboveZeros(a: seq<Bigit>, b: seq<Bigit>, c: seq<Bigit>, i: nat)
    requires i <= |a| == |b| == |c|
    requires forall j :: 0 <= j < i ==> a[j] == b[j] == c[j] == 0
    ensures Excess(a, b, c, i) == 0 ==> Sum(a, |a|) + Sum(b, |b|) == Sum(c, |c|)
    ensures Excess(a, b, c, i) > 0 ==> Sum(a, |a|) + Sum(b, |b|) < Sum(c, |c|)
  {
    ExcessSplits(a, b, c, i);
    SumZeroTail(a, 0, i);
    SumZeroTail(b, 0, i);
    SumZeroTail(c, 0, i);
    if Excess(a, b, c, i) > 0 {
      MulStrict(0, Excess(a, b, c, i), Weight(i));
    }
  }

  lemma {:induction false} SumTailAgree(s: seq<Bigit>, t: seq<Bigit>, k: nat, n: nat)
    requires k <= n <= |s| && n <= |t|
    requires forall j :: k <= j < n ==> s[j] == t[j]
    ensures Sum(s, n) - Sum(t, n) == Sum(s, k) - Sum(t, k)
  {
    if k < n {
      SumTailAgree(s, t, k, n - 1);
    }
  }

  /** One column of b0 - factor * o, where o is read d places up. */
  lemma SubtractStep(before: seq<Bigit>, after: seq<Bigit>, b0: seq<Bigit>, o: seq<Bigit>, i: nat, d: nat,
                     factor: nat, borrow: nat, borrow': nat)
    requires i < |o| && i + d < |before| == |b0| == |after|
    requires before[i + d] == b0[i + d] && after == before[i + d := after[i + d]]
    requires after[i + d] - borrow' * BASE == b0[i + d] - borrow - factor * o[i]
    requires Sum(before, i + d) - borrow * Weight(i + d) == Sum(b0, i + d) - factor * (Sum(o, i) * Weight(d))
    ensures Sum(after, i + 1 + d) - borrow' * Weight(i + 1 + d)
         == Sum(b0, i + 1 + d) - factor * (Sum(o, i + 1) * Weight(d))
  {
    var k := i + d;
    var w := Weight(k);
    var y := b0[k] - borrow - factor * o[i];
    StoreDifference(before, after, k, y, after[k], borrow');
    ShiftedDigit(Sum(o, i), o[i], i, d);
    DifferenceColumn(Sum(o, i) * Weight(d), factor, o[i], b0[k], borrow, w);
  }

  lemma DifferenceColumn(sum: int, factor: int, digit: int, top: int, borrow: int, w: int)
    ensures (top - borrow - factor * digit) * w == top * w - borrow * w - (factor * (sum + digit * w) - factor * sum)
  {
    assert (factor * digit) * w == factor * (digit * w);
    assert factor * (sum + digit * w) == factor * sum + factor * (digit * w);
  }

  /** One place further up a borrow only: nothing but the borrow is taken from b0's digit k. */
  lemma RippleStep(before: seq<Bigit>, after: seq<Bigit>, b0: seq<Bigit>, k: nat,
                   removed: int, borrow: nat, borrow': nat)
    requires k < |before| == |b0| == |after|
    requires before[k] == b0[k] && after == before[k := after[k]]
    requires after[k] - borrow' * BASE == b0[k] - borrow
    requires Sum(before, k) - borrow * Weight(k) == Sum(b0, k) - removed
    ensures Sum(after, k + 1) - borrow' * Weight(k + 1) == Sum(b0, k + 1) - removed
  {
    var w := Weight(k);
    StoreDifference(before, after, k, b0[k] - borrow, after[k], borrow');
    assert (b0[k] - borrow) * w == b0[k] * w - borrow * w;
  }

  /** A difference that is not negative leaves no borrow above its top digit. */
  lemma NoBorrowLeft(s: seq<Bigit>, n: nat, borrow: nat, rest: int)
    requires n <= |s| && rest >= 0
    requires Sum(s, n) - borrow * Weight(n) == rest
    ensures borrow == 0
  {
    SumBound(s, n);
    if borrow > 0 {
      MulMonotone(1, borrow, Weight(n));
    }
  }

  /** One column of b0 + o, where o is read d places up. */
  lemma AddStep(before: seq<Bigit>, after: seq<Bigit>, b0: seq<Bigit>, o: seq<Bigit>, i: nat, d: nat, carry: nat)
    requires i < |o| && i + d < |before| == |b0| == |after|
    requires before[i + d] == b0[i + d] && after == before[i + d := after[i + d]]
    requires after[i + d] == (b0[i + d] + o[i] + carry) % BASE
    requires Sum(before, i + d) + carry * Weight(i + d) == Sum(b0, i + d) + Sum(o, i) * Weight(d)
    ensures Sum(after, i + 1 + d) + ((b0[i + d] + o[i] + carry) / BASE) * Weight(i + 1 + d)
         == Sum(b0, i + 1 + d) + Sum(o, i + 1) * Weight(d)
  {
    var k := i + d;
    StoreDigit(before, after, k, b0[k] + o[i] + carry);
    ShiftedDigit(Sum(o, i), o[i], i, d);
    SumColumn(b0[k], o[i], carry, Weight(k));
  }

  lemma SumColumn(a: int, b: int, c: int, w: int)
    ensures (a + b + c) * w == a * w + b * w + c * w
  {
  }

  lemma CarryStep(before: seq<Bigit>, after: seq<Bigit>, b0: seq<Bigit>, k: nat, added: int, carry: nat)
    requires k < |before| == |b0| == |after| && before[k] == b0[k]
    requires after == before[k := after[k]] && after[k] == (b0[k] + carry) % BASE
    requires Sum(before, k) + carry * Weight(k) == Sum(b0, k) + added
    ensures Sum(after, k + 1) + ((b0[k] + carry) / BASE) * Weight(k + 1) == Sum(b0, k + 1) + added
  {
    StoreDigit(before, after, k, b0[k] + carry);
    SumColumn(b0[k], 0, carry, Weight(k));
  }
}
