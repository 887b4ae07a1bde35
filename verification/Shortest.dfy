/** What it means for a decimal to be the shortest one that identifies a number, and why digit
    generation from the left finds it. */
module Shortest {
  import opened Arithmetic
  import opened Decimals

  /** The number num / den with the interval of numbers that round to it: it reaches minus / den
      below and plus / den above, end points included when closed. */
  datatype Target = Target(num: nat, den: nat, minus: nat, plus: nat, closed: bool)
  {
    /** Does the fraction a / b round to this number? */
    ghost predicate Contains(a: int, b: nat) {
      if closed then (num - minus) * b <= a * den <= (num + plus) * b
      else (num - minus) * b < a * den < (num + plus) * b
    }

    /** Does the decimal m * 10^p? */
    ghost predicate ContainsDecimal(m: nat, p: int) {
      if p >= 0 then Contains(m * Pow(10, p), 1) else Contains(m, Pow(10, -p))
    }

    /** The distance of n / 10^k from the number, in units of 1 / (den * 10^k). */
    ghost function Distance(n: int, k: nat): nat {
      var d := n * den - num * Pow(10, k);
      if d >= 0 then d else -d
    }

    /** The distances are positive, and the upper end lies between 1 and 10, the end points
        deciding themselves by whether the interval is closed. */
    ghost predicate Normalized() {
      && den > 0 && 0 < minus < num && plus > 0
      && (if closed then den <= num + plus < 10 * den else den < num + plus <= 10 * den)
    }

    /** No integer multiple of 10^-k rounds to the number. */
    ghost predicate NoneAt(k: nat) {
      forall n: int :: !Contains(n, Pow(10, k))
    }

    /** The remainder of num * 10^k after the digits n were taken off it. */
    ghost predicate Remainder(n: nat, r: int, k: nat) {
      num * Pow(10, k) == n * den + r && 0 <= r < den
    }

    ghost predicate InRoomMinus(r: int, k: nat) {
      if closed then r <= minus * Pow(10, k) else r < minus * Pow(10, k)
    }

    ghost predicate InRoomPlus(r: int, k: nat) {
      if closed then r + plus * Pow(10, k) >= den else r + plus * Pow(10, k) > den
    }

    /** The decimal n / 10^k is what free-format output promises: it rounds to the number, no
        decimal of at most k digits does, and among those with the same last place it is a closest
        one, an even last digit deciding a tie. */
    ghost predicate IsShortest(n: nat, k: nat) {
      && Contains(n, Pow(10, k))
      && (forall m: nat, p: int :: m < Pow(10, k) ==> !ContainsDecimal(m, p))
      && (forall m: int :: Contains(m, Pow(10, k)) ==> Beats(n, m, k))
    }

    /** n / 10^k is at least as close as m / 10^k, and even when another one is equally close. */
    ghost predicate Beats(n: int, m: int, k: nat) {
      && Distance(n, k) <= Distance(m, k)
      && (m != n && Distance(n, k) == Distance(m, k) ==> n % 2 == 0)
    }

    /** Containment of a decimal, with the products spelled out. */
    lemma Spread(m: int, k: nat)
      ensures Contains(m, Pow(10, k)) <==>
              Within(closed, num * Pow(10, k), minus * Pow(10, k), plus * Pow(10, k), m * den)
      ensures Pow(10, k) > 0
    {
      var s := Pow(10, k);
      Distribute(num, minus, s);
      Distribute(num, plus, s);
    }

    /** Room below means that the digits so far round to the number, room above that their successor does. */
    lemma RoomsAreNeighbours(n: nat, r: int, k: nat)
      requires Normalized() && Remainder(n, r, k)
      ensures InRoomMinus(r, k) <==> Contains(n, Pow(10, k))
      ensures InRoomPlus(r, k) <==> Contains(n + 1, Pow(10, k))
    {
      Spread(n, k);
      Spread(n + 1, k);
      Distribute(n, 1, den);
      MulStrict(0, plus, Pow(10, k));
      MulStrict(0, minus, Pow(10, k));
    }

    /** Only the digits so far and their successor can be closest: whatever rounds to the number
        at this place is no closer than the one of them on its side. */
    lemma NeighboursDecide(n: nat, r: int, k: nat, m: int)
      requires Normalized() && Remainder(n, r, k) && Contains(m, Pow(10, k))
      ensures m <= n ==> Contains(n, Pow(10, k)) && Distance(m, k) >= Distance(n, k)
      ensures m > n ==> Contains(n + 1, Pow(10, k)) && Distance(m, k) >= Distance(n + 1, k)
      ensures m < n ==> Distance(m, k) > Distance(n, k)
      ensures m > n + 1 ==> Distance(m, k) > Distance(n + 1, k)
      ensures Distance(n, k) == r && Distance(n + 1, k) == den - r
    {
      Spread(m, k);
      Spread(n, k);
      Spread(n + 1, k);
      Distribute(n, 1, den);
      MulStrict(0, plus, Pow(10, k));
      MulStrict(0, minus, Pow(10, k));
      if m < n {
        MulStrict(m, n, den);
      } else if m > n + 1 {
        MulStrict(n + 1, m, den);
      }
    }

    lemma NoRoom(n: nat, r: int, k: nat)
      requires Normalized() && Remainder(n, r, k)
      requires !InRoomMinus(r, k) && !InRoomPlus(r, k)
      ensures NoneAt(k)
      ensures (minus + plus) * Pow(10, k) <= den
    {
      forall m: int
        ensures !Contains(m, Pow(10, k))
      {
        if Contains(m, Pow(10, k)) {
          NeighboursDecide(n, r, k, m);
          RoomsAreNeighbours(n, r, k);
        }
      }
      Distribute(minus, plus, Pow(10, k));
    }

    /** With no room at the first digit, everything that rounds to the number exceeds one. */
    lemma AboveOne(n: nat, r: int)
      requires Normalized() && Remainder(n, r, 0) && !InRoomMinus(r, 0) && !InRoomPlus(r, 0)
      ensures n >= 1 && num - minus >= den
    {
      assert Pow(10, 0) == 1;
      assert n != 0;
      MulMonotone(1, n, den);
    }

    /** If nothing rounds to the number at the places before k, no decimal of at most k digits does. */
    lemma NoShorter(k: nat, m: nat, p: int)
      requires Normalized() && m < Pow(10, k)
      requires forall j: nat :: j < k ==> NoneAt(j)
      requires k > 0 ==> num - minus >= den
      ensures !ContainsDecimal(m, p)
    {
      if k == 0 {
        if p < 0 {
          MulStrict(0, num - minus, Pow(10, -p));
        }
      } else if p >= 0 {
        assert NoneAt(0) && Pow(10, 0) == 1;
      } else if -p < k {
        assert NoneAt(-p);
      } else {
        PowMonotone(10, k, -p);
        MulStrict(m, Pow(10, -p), den);
        MulMonotone(den, num - minus, Pow(10, -p));
      }
    }

    /** The digits that stop the generation, rounded as the rooms and the remainder say. */
    lemma StopIsShortest(n: nat, r: int, k: nat)
      requires Normalized() && Remainder(n, r, k)
      requires forall j: nat :: j < k ==> NoneAt(j)
      requires k > 0 ==> num - minus >= den
      requires InRoomMinus(r, k) || InRoomPlus(r, k)
      ensures IsShortest(RoundedDigits(n, r, k), k)
    {
      RoomsAreNeighbours(n, r, k);
      forall m: nat, p: int | m < Pow(10, k)
        ensures !ContainsDecimal(m, p)
      {
        NoShorter(k, m, p);
      }
      forall m: int | Contains(m, Pow(10, k))
        ensures Beats(RoundedDigits(n, r, k), m, k)
      {
        RoundedBeats(n, r, k, m);
      }
    }

    lemma RoundedBeats(n: nat, r: int, k: nat, m: int)
      requires Normalized() && Remainder(n, r, k) && Contains(m, Pow(10, k))
      requires InRoomMinus(r, k) || InRoomPlus(r, k)
      ensures Beats(RoundedDigits(n, r, k), m, k)
    {
      RoomsAreNeighbours(n, r, k);
      NeighboursDecide(n, r, k, m);
    }

    /** How the last digit is rounded: towards the only neighbour there is room for, otherwise to
        the closer one, and in the middle to the even one. */
    ghost function RoundedDigits(n: nat, r: int, k: nat): nat {
      if InRoomMinus(r, k) && InRoomPlus(r, k) then
        (if 2 * r < den || (2 * r == den && n % 2 == 0) then n else n + 1)
      else if InRoomMinus(r, k) then n else n + 1
    }

    /** A last digit nine is never rounded up: the generation would have stopped before. */
    lemma NoNineRoundsUp(n: nat, r: int, k: nat, digit: nat)
      requires Normalized() && Remainder(n, r, k) && InRoomPlus(r, k)
      requires k == 0 ==> digit == n
      requires k > 0 ==> n >= digit && (n - digit) % 10 == 0 && NoneAt(k - 1)
      ensures digit != 9
    {
      RoomsAreNeighbours(n, r, k);
      if k == 0 {
        assert Pow(10, 0) == 1;
      } else {
        TenTimes((n - digit) / 10 + 1, k);
      }
    }

    /** A decimal rounds to the number whether or not a final zero is written. */
    lemma TenTimes(q: int, k: nat)
      requires k > 0
      ensures Contains(10 * q, Pow(10, k)) <==> Contains(q, Pow(10, k - 1))
    {
      hide Pow, Contains;
      TenMore(k - 1);
      Spread(10 * q, k);
      Spread(q, k - 1);
      TenTimesAll(Pow(10, k - 1), q);
    }

    /** Ten times all of it is the same interval. */
    lemma TenTimesAll(s: nat, q: int)
      ensures Within(closed, num * (10 * s), minus * (10 * s), plus * (10 * s), 10 * q * den)
          <==> Within(closed, num * s, minus * s, plus * s, q * den)
    {
      MulTen(num, s);
      MulTen(minus, s);
      MulTen(plus, s);
      Associate(10, q, den);
    }

    /** One more digit: the next remainder comes from ten times the last one. */
    lemma NextRemainder(n: nat, r: int, k: nat, digit: nat, r': int)
      requires den > 0 && Remainder(n, r, k)
      requires 10 * r == digit * den + r' && 0 <= r' < den
      ensures Remainder(10 * n + digit, r', k + 1)
    {
      assert num * (10 * Pow(10, k)) == 10 * (num * Pow(10, k));
      Distribute(10 * n, digit, den);
      assert (10 * n) * den == 10 * (n * den);
    }
  }

  predicate Within(closed: bool, mid: int, below: int, above: int, x: int) {
    if closed then mid - below <= x <= mid + above else mid - below < x < mid + above
  }
}
