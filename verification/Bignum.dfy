/** double-conversion's Bignum: 128 bigits kept in place, above a number of hidden zero bigits. */
module Bignums {
  import opened Arithmetic
  import opened Bigits
  import opened Comba
  import opened Decimals
  import opened Exponentiation

  class Bignum {
    const bigits: array<Bigit>
    var usedDigits: nat
    var exponent: nat

    ghost predicate Valid()
      reads this, bigits
    {
      && bigits.Length == CAPACITY
      && usedDigits <= CAPACITY
      && (forall i :: usedDigits <= i < CAPACITY ==> bigits[i] == 0)
      && (usedDigits == 0 ==> exponent == 0)
    }

    predicate IsClamped()
      requires Valid()
      reads this, bigits
    {
      usedDigits == 0 || bigits[usedDigits - 1] != 0
    }

    ghost predicate Normal()
      reads this, bigits
    {
      Valid() && IsClamped()
    }

    /** The number in the stored bigits alone. */
    ghost function Mantissa(): nat
      requires Valid()
      reads this, bigits
    {
      Sum(bigits[..], usedDigits)
    }

    /** The number this object stands for. */
    ghost function Value(): nat
      requires Valid()
      reads this, bigits
    {
      Scaled(Mantissa(), exponent)
    }

    function BigitLength(): nat
      reads this
    {
      usedDigits + exponent
    }

    function BigitAt(index: int): nat
      requires Valid()
      reads this, bigits
    {
      if index >= BigitLength() || index < exponent then 0 else bigits[index - exponent]
    }

    constructor ()
      ensures Normal() && Value() == 0
      ensures fresh(bigits)
    {
      bigits := new Bigit[CAPACITY](_ => 0);
      usedDigits, exponent := 0, 0;
    }

    method Zero()
      requires Valid()
      modifies this, bigits
      ensures Normal() && Value() == 0 && usedDigits == 0
    {
      var i := 0;
      while i < usedDigits
        modifies bigits
        invariant 0 <= i <= usedDigits && Valid()
        invariant forall j :: 0 <= j < i ==> bigits[j] == 0
      {
        bigits[i] := 0;
        i := i + 1;
      }
      usedDigits, exponent := 0, 0;
    }

    method Clamp()
      requires bigits.Length == CAPACITY && usedDigits <= CAPACITY
      requires forall i :: usedDigits <= i < CAPACITY ==> bigits[i] == 0
      modifies this
      ensures Normal() && usedDigits <= old(usedDigits)
      ensures bigits[..] == old(bigits[..])
      ensures Mantissa() == Sum(old(bigits[..]), old(usedDigits))
      ensures Value() == Scaled(Sum(old(bigits[..]), old(usedDigits)), old(exponent))
      ensures exponent == if usedDigits == 0 then 0 else old(exponent)
      ensures old(usedDigits) > 0 && old(bigits[usedDigits - 1]) != 0 ==> usedDigits == old(usedDigits)
    {
      while usedDigits > 0 && bigits[usedDigits - 1] == 0
        invariant usedDigits <= old(usedDigits)
        invariant forall i :: usedDigits <= i < CAPACITY ==> bigits[i] == 0
        invariant exponent == old(exponent)
        invariant old(usedDigits) > 0 && bigits[old(usedDigits) - 1] != 0 ==> usedDigits == old(usedDigits)
      {
        usedDigits := usedDigits - 1;
      }
      SumZeroTail(bigits[..], usedDigits, old(usedDigits));
      if usedDigits == 0 {
        ScaledIsProduct(0, exponent);
        exponent := 0;
      }
    }

    method AssignUInt16(value: nat)
      requires Valid() && value < 0x1_0000
      modifies this, bigits
      ensures Normal() && Value() == value && exponent == 0
      ensures value != 0 ==> usedDigits == 1
    {
      Zero();
      if value == 0 {
        return;
      }
      bigits[0] := value;
      usedDigits := 1;
      assert Sum(bigits[..], 1) == Sum(bigits[..], 0) + bigits[..][0] * Weight(0);
    }

    method AssignUInt64(value: nat)
      requires Valid() && value < DOUBLE_CHUNK
      modifies this, bigits
      ensures Normal() && Value() == value && exponent == 0 && usedDigits <= 3
    {
      Zero();
      if value == 0 {
        return;
      }
      var neededBigits := 64 / BIGIT_SIZE + 1;
      var rest: nat := value;
      var i := 0;
      while i < neededBigits
        invariant 0 <= i <= neededBigits && usedDigits == 0 && exponent == 0
        invariant forall j :: i <= j < CAPACITY ==> bigits[j] == 0
        invariant Sum(bigits[..], i) + rest * Weight(i) == value
        invariant i == 0 ==> rest == value
        invariant i == 1 ==> rest < DOUBLE_CHUNK / BASE
        invariant i == 2 ==> rest < BASE
        invariant i == 3 ==> rest == 0
      {
        ghost var before := bigits[..];
        bigits[i] := rest % BASE;
        assert bigits[..] == before[i := bigits[i]];
        StoreDigit(before, bigits[..], i, rest);
        rest := rest / BASE;
        i := i + 1;
      }
      usedDigits := neededBigits;
      Clamp();
    }

    method AssignBignum(other: Bignum)
      requires Valid() && other.Valid() && other.bigits != bigits
      modifies this, bigits
      ensures Valid() && Value() == other.Value()
      ensures usedDigits == other.usedDigits && exponent == other.exponent
      ensures other.IsClamped() ==> IsClamped()
    {
      exponent := other.exponent;
      var i := 0;
      while i < other.usedDigits
        modifies bigits
        invariant 0 <= i <= other.usedDigits
        invariant forall j :: 0 <= j < i ==> bigits[j] == other.bigits[j]
        invariant forall j :: i <= j < CAPACITY && usedDigits <= j ==> bigits[j] == 0
      {
        bigits[i] := other.bigits[i];
        i := i + 1;
      }
      i := other.usedDigits;
      while i < usedDigits
        modifies bigits
        invariant other.usedDigits <= i && (i <= usedDigits || i == other.usedDigits)
        invariant forall j :: 0 <= j < other.usedDigits ==> bigits[j] == other.bigits[j]
        invariant forall j :: other.usedDigits <= j < i ==> bigits[j] == 0
        invariant forall j :: i <= j < CAPACITY && usedDigits <= j ==> bigits[j] == 0
      {
        bigits[i] := 0;
        i := i + 1;
      }
      usedDigits := other.usedDigits;
      SumAgree(bigits[..], other.bigits[..], usedDigits);
    }

    /** Lowers the hidden exponent to other's by making hidden zero bigits explicit. */
    method Align(other: Bignum)
      requires Valid() && other.Valid() && other != this
      requires exponent > other.exponent ==> BigitLength() - other.exponent <= CAPACITY
      modifies this, bigits
      ensures Valid() && Value() == old(Value())
      ensures BigitLength() == old(BigitLength())
      ensures exponent == Min(old(exponent), other.exponent)
      ensures old(IsClamped()) ==> IsClamped()
    {
      hide Weight, Sum, Scaled;
      if exponent > other.exponent {
        var zeroDigits := exponent - other.exponent;
        ShiftedValue(Mantissa(), zeroDigits, other.exponent);
        MakeRoom(zeroDigits);
        usedDigits := usedDigits + zeroDigits;
        exponent := exponent - zeroDigits;
      }
    }

    /** The two loops of Align. */
    method MakeRoom(zeroDigits: nat)
      requires Valid() && usedDigits + zeroDigits <= CAPACITY
      modifies bigits
      ensures forall j :: usedDigits + zeroDigits <= j < CAPACITY ==> bigits[j] == 0
      ensures Sum(bigits[..], usedDigits + zeroDigits) == old(Mantissa()) * Weight(zeroDigits)
      ensures usedDigits > 0 ==> bigits[usedDigits + zeroDigits - 1] == old(bigits[usedDigits - 1])
    {
      hide Weight, Sum, Scaled;
      ghost var b0 := bigits[..];
      MoveAll(zeroDigits);
      SumShift(b0, usedDigits, bigits[..], zeroDigits);
    }

    /** Both loops of Align. */
    method MoveAll(zeroDigits: nat)
      requires Valid() && usedDigits + zeroDigits <= CAPACITY
      modifies bigits
      ensures forall j :: 0 <= j < zeroDigits ==> bigits[j] == 0
      ensures forall j :: zeroDigits <= j < usedDigits + zeroDigits ==> bigits[j] == old(bigits[..])[j - zeroDigits]
      ensures forall j :: usedDigits + zeroDigits <= j < CAPACITY ==> bigits[j] == 0
    {
      MoveUp(zeroDigits);
      ClearLow(zeroDigits);
    }

    /** The first loop of Align: every stored bigit moves up, highest first. */
    method MoveUp(zeroDigits: nat)
      requires Valid() && usedDigits + zeroDigits <= CAPACITY
      modifies bigits
      ensures forall j :: zeroDigits <= j < usedDigits + zeroDigits ==> bigits[j] == old(bigits[..])[j - zeroDigits]
      ensures forall j :: usedDigits + zeroDigits <= j < CAPACITY ==> bigits[j] == 0
    {
      ghost var b0 := bigits[..];
      var i := usedDigits - 1;
      while i >= 0
        invariant -1 <= i < usedDigits
        invariant forall j :: i + zeroDigits < j < usedDigits + zeroDigits ==> bigits[j] == b0[j - zeroDigits]
        invariant forall j :: 0 <= j <= i ==> bigits[j] == b0[j]
        invariant forall j :: usedDigits + zeroDigits <= j < CAPACITY ==> bigits[j] == 0
      {
        bigits[i + zeroDigits] := bigits[i];
        i := i - 1;
      }
    }

    /** The second loop of Align: the places that became free get zero bigits. */
    method ClearLow(zeroDigits: nat)
      requires zeroDigits <= bigits.Length
      modifies bigits
      ensures forall j :: 0 <= j < zeroDigits ==> bigits[j] == 0
      ensures forall j :: zeroDigits <= j < bigits.Length ==> bigits[j] == old(bigits[j])
    {
      var i := 0;
      while i < zeroDigits
        invariant 0 <= i <= zeroDigits
        invariant forall j :: 0 <= j < i ==> bigits[j] == 0
        invariant forall j :: i <= j < bigits.Length ==> bigits[j] == old(bigits[j])
      {
        bigits[i] := 0;
        i := i + 1;
      }
    }

    method MultiplyByUInt32(factor: nat)
      requires Valid() && factor < CHUNK
      requires Mantissa() * factor < Weight(bigits.Length)
      modifies this, bigits
      ensures Valid() && Value() == old(Value()) * factor
      ensures factor != 0 ==> Mantissa() == old(Mantissa()) * factor && exponent == old(exponent)
      ensures old(IsClamped()) ==> IsClamped()
    {
      hide Weight;
      if factor == 1 {
        return;
      }
      if factor == 0 {
        Zero();
        return;
      }
      if usedDigits == 0 {
        return;
      }
      ghost var product := Mantissa() * factor;
      var carry := MultiplyColumns32(factor);
      AppendCarry(carry, product);
      ScaledProduct(old(Mantissa()), factor, exponent);
    }

    /** The column loop of MultiplyByUInt32. */
    method MultiplyColumns32(factor: nat) returns (carry: nat)
      requires Valid() && 0 < factor < CHUNK
      modifies bigits
      ensures Valid() && carry < factor
      ensures Mantissa() + carry * Weight(usedDigits) == old(Mantissa()) * factor
      ensures usedDigits > 0 && old(bigits[usedDigits - 1]) != 0 && carry == 0 ==> bigits[usedDigits - 1] != 0
    {
      ghost var b0 := bigits[..];
      carry := 0;
      var i := 0;
      while i < usedDigits
        invariant 0 <= i <= usedDigits && Valid()
        invariant forall j :: i <= j < CAPACITY ==> bigits[j] == b0[j]
        invariant carry < factor
        invariant Sum(bigits[..], i) + carry * Weight(i) == Sum(b0, i) * factor
        invariant i > 0 && b0[i - 1] != 0 && carry == 0 ==> bigits[i - 1] != 0
      {
        carry := MultiplyColumn32(factor, i, carry, b0);
        i := i + 1;
      }
    }

    /** Multiplying by a 64-bit factor whose two halves are applied separately, with a 64-bit carry. */
    method MultiplyByUInt64(factor: nat)
      requires Valid() && factor < DOUBLE_CHUNK
      requires Mantissa() * factor < Weight(bigits.Length)
      modifies this, bigits
      ensures Valid() && Value() == old(Value()) * factor
      ensures factor != 0 ==> Mantissa() == old(Mantissa()) * factor && exponent == old(exponent)
      ensures old(IsClamped()) ==> IsClamped()
    {
      hide Weight, Sum, Scaled;
      if factor == 1 {
        return;
      }
      if factor == 0 {
        Zero();
        return;
      }
      ghost var product := Mantissa() * factor;
      var carry := MultiplyColumns64(factor);
      AppendCarry(carry, product);
      ScaledProduct(old(Mantissa()), factor, exponent);
    }

    /** The column loop of MultiplyByUInt64: none of its 64-bit words wraps. */
    method MultiplyColumns64(factor: nat) returns (carry: nat)
      requires Valid() && 0 < factor < DOUBLE_CHUNK
      modifies bigits
      ensures Valid() && carry < factor && (usedDigits == 0 ==> carry == 0)
      ensures Mantissa() + carry * Weight(usedDigits) == old(Mantissa()) * factor
      ensures usedDigits > 0 && old(bigits[usedDigits - 1]) != 0 && carry == 0 ==> bigits[usedDigits - 1] != 0
    {
      ghost var b0 := bigits[..];
      carry := 0;
      var low := factor % CHUNK;
      var high := factor / CHUNK;
      var i := 0;
      while i < usedDigits
        invariant 0 <= i <= usedDigits && Valid()
        invariant forall j :: i <= j < CAPACITY ==> bigits[j] == b0[j]
        invariant carry < factor && (i == 0 ==> carry == 0)
        invariant Sum(bigits[..], i) + carry * Weight(i) == Sum(b0, i) * factor
        invariant i > 0 && b0[i - 1] != 0 && carry == 0 ==> bigits[i - 1] != 0
      {
        carry := MultiplyColumn64(factor, low, high, i, carry, b0);
        i := i + 1;
      }
    }

    /** All digits of the number up to place n, hidden zeros included. */
    ghost function Digits(n: nat): (t: seq<Bigit>)
      requires Valid() && BigitLength() <= n
      reads this, bigits
      ensures |t| == n && forall i :: 0 <= i < n ==> t[i] == BigitAt(i)
    {
      Padded(bigits[..usedDigits], exponent, n)
    }

    lemma DigitsSum(n: nat)
      requires Valid() && BigitLength() <= n
      ensures Sum(Digits(n), n) == Value()
    {
      PaddedSum(bigits[..usedDigits], exponent, n);
      SumAgree(bigits[..usedDigits], bigits[..], usedDigits);
      ScaledIsProduct(Mantissa(), exponent);
    }

    /** A clamped number lies between the weights of its top digit and of the place above. */
    lemma LengthBounds()
      requires Valid()
      ensures Value() < Weight(BigitLength())
      ensures IsClamped() && usedDigits > 0 ==> Weight(BigitLength() - 1) <= Value()
      ensures IsClamped() ==> (Value() == 0 <==> usedDigits == 0)
    {
      hide Weight, Scaled;
      var s, w := bigits[..], Weight(exponent);
      ScaledIsProduct(Mantissa(), exponent);
      SumBound(s, usedDigits);
      WeightAdd(usedDigits, exponent);
      MulStrict(Mantissa(), Weight(usedDigits), w);
      if IsClamped() && usedDigits > 0 {
        MulMonotone(1, s[usedDigits - 1], Weight(usedDigits - 1));
        MulMonotone(Weight(usedDigits - 1), Mantissa(), w);
        WeightAdd(usedDigits - 1, exponent);
      }
    }

    static method Compare(a: Bignum, b: Bignum) returns (r: int)
      requires a.Normal() && b.Normal()
      ensures r == Sign(a.Value() - b.Value())
    {
      hide Weight, Sum, Scaled;
      var lengthA := a.BigitLength();
      var lengthB := b.BigitLength();
      a.LengthBounds();
      b.LengthBounds();
      if lengthA < lengthB {
        WeightMonotone(lengthA, lengthB - 1);
        return -1;
      }
      if lengthA > lengthB {
        WeightMonotone(lengthB, lengthA - 1);
        return 1;
      }
      ghost var s, t := a.Digits(lengthA), b.Digits(lengthA);
      a.DigitsSum(lengthA);
      b.DigitsSum(lengthA);
      var low := if a.exponent <= b.exponent then a.exponent else b.exponent;
      var i := lengthA - 1;
      while i >= low
        invariant low - 1 <= i < lengthA || (i == lengthA - 1 && lengthA <= low)
        invariant forall j :: 0 <= i + 1 <= j < lengthA ==> s[j] == t[j]
      {
        var bigitA := a.BigitAt(i);
        var bigitB := b.BigitAt(i);
        if bigitA < bigitB {
          HigherDigitDecides(s, t, i, lengthA);
          return -1;
        }
        if bigitA > bigitB {
          HigherDigitDecides(t, s, i, lengthA);
          return 1;
        }
        i := i - 1;
      }
      assert s == t;
      return 0;
    }

    /** The sign of a + b - c, found in one scan from the top. */
    static method PlusCompare(a: Bignum, b: Bignum, c: Bignum) returns (r: int)
      requires a.Normal() && b.Normal() && c.Normal()
      ensures r == Sign(a.Value() + b.Value() - c.Value())
      decreases if a.BigitLength() < b.BigitLength() then 1 else 0
    {
      hide Weight, Sum, Scaled;
      if a.BigitLength() < b.BigitLength() {
        r := PlusCompare(b, a, c);
        return;
      }
      var lengthA := a.BigitLength();
      var n := c.BigitLength();
      a.LengthBounds();
      b.LengthBounds();
      c.LengthBounds();
      WeightMonotone(b.BigitLength(), lengthA);
      if lengthA + 1 < n {
        WeightStep(lengthA);
        WeightMonotone(lengthA + 1, n - 1);
        return -1;
      }
      if lengthA > n {
        WeightMonotone(n, lengthA - 1);
        return 1;
      }
      if a.exponent >= b.BigitLength() && lengthA < n {
        GapBelow(a, b);
        WeightMonotone(lengthA, n - 1);
        return -1;
      }
      r := ScanFromTop(a, b, c);
    }

    /** The scan of PlusCompare: the borrow carried down never exceeds one. */
    static method ScanFromTop(a: Bignum, b: Bignum, c: Bignum) returns (r: int)
      requires a.Valid() && b.Valid() && c.Valid()
      requires a.BigitLength() <= c.BigitLength() && b.BigitLength() <= c.BigitLength()
      ensures r == Sign(a.Value() + b.Value() - c.Value())
    {
      hide Weight, Scaled, Sum, Excess;
      var n := c.BigitLength();
      ghost var s, t, u := a.Digits(n), b.Digits(n), c.Digits(n);
      a.DigitsSum(n);
      b.DigitsSum(n);
      c.DigitsSum(n);
      ExcessTop(s, t, u);
      var borrow := 0;
      var low := if a.exponent <= b.exponent then a.exponent else b.exponent;
      low := if c.exponent < low then c.exponent else low;
      var i := n - 1;
      while i >= low
        invariant low - 1 <= i < n || (i == n - 1 && n <= low)
        invariant i >= -1 && (borrow == 0 || borrow == BASE)
        invariant Excess(s, t, u, i + 1) * BASE == borrow
      {
        var chunkA := a.BigitAt(i);
        var chunkB := b.BigitAt(i);
        var chunkC := c.BigitAt(i);
        var sum := chunkA + chunkB;
        ExcessNext(s, t, u, i);
        assert Excess(s, t, u, i) == borrow + chunkC - sum;
        if sum > chunkC + borrow {
          ExcessDecides(s, t, u, i);
          return 1;
        } else {
          borrow := chunkC + borrow - sum;
          if borrow > 1 {
            ExcessDecides(s, t, u, i);
            return -1;
          }
          borrow := borrow * BASE;
        }
        i := i - 1;
      }
      ExcessAboveZeros(s, t, u, i + 1);
      if borrow == 0 {
        return 0;
      }
      return -1;
    }

    /** When b fits below a's hidden bigits, adding it does not make a longer. */
    static lemma GapBelow(a: Bignum, b: Bignum)
      requires a.Normal() && b.Normal() && a.exponent >= b.BigitLength()
      ensures a.Value() + b.Value() < Weight(a.BigitLength())
    {
      b.LengthBounds();
      WeightMonotone(b.BigitLength(), a.exponent);
      SumBound(a.bigits[..], a.usedDigits);
      RoomBelow(a.Mantissa(), a.usedDigits, a.exponent);
    }

    /** Where other can be subtracted, its digits lie within the stored ones. */
    lemma SubtrahendFits(other: Bignum, factor: nat) returns (removed: int)
      requires Normal() && other.Normal() && exponent <= other.exponent
      requires factor > 0 && factor * other.Value() <= Value()
      ensures other.BigitLength() <= BigitLength()
      ensures removed == factor * (other.Mantissa() * Weight(other.exponent - exponent))
      ensures factor == 1 ==> removed == other.Mantissa() * Weight(other.exponent - exponent)
      ensures removed <= Mantissa()
      ensures Scaled(Mantissa() - removed, exponent) == Value() - factor * other.Value()
    {
      hide Weight, Sum, Scaled;
      LengthBounds();
      other.LengthBounds();
      MulMonotone(1, factor, other.Value());
      if BigitLength() < other.BigitLength() {
        WeightMonotone(BigitLength(), other.BigitLength() - 1);
        assert false;
      }
      var d := other.exponent - exponent;
      ShiftedValue(other.Mantissa(), d, exponent);
      removed := factor * (other.Mantissa() * Weight(d));
      ScaledDifference(Mantissa(), factor, other.Mantissa() * Weight(d), exponent);
    }

    method SubtractBignum(other: Bignum)
      requires Normal() && other.Normal() && other.bigits != bigits
      requires other.Value() <= Value()
      requires exponent > other.exponent ==> BigitLength() - other.exponent <= CAPACITY
      modifies this, bigits
      ensures Normal() && Value() == old(Value()) - other.Value()
      ensures BigitLength() <= old(BigitLength()) && exponent <= other.exponent
    {
      Align(other);
      SubtractAligned(other);
    }

    method SubtractAligned(other: Bignum)
      requires Normal() && other.Normal() && other.bigits != bigits
      requires exponent <= other.exponent && other.Value() <= Value()
      modifies this, bigits
      ensures Normal() && Value() == old(Value()) - other.Value()
      ensures BigitLength() <= old(BigitLength()) && exponent <= other.exponent
    {
      ghost var b0 := bigits[..];
      ghost var removed := SubtrahendFits(other, 1);
      var offset := other.exponent - exponent;
      var borrow := SubtractColumns(other, offset);
      RippleBorrow(borrow, other.usedDigits + offset, b0, removed);
      Clamp();
    }

    /** The column loop of SubtractBignum, on words that wrap at 2^32. */
    method SubtractColumns(other: Bignum, offset: nat) returns (borrow: nat)
      requires Valid() && other.Valid() && other.bigits != bigits
      requires other.usedDigits + offset <= usedDigits
      modifies bigits
      ensures Valid() && 0 <= borrow <= 1
      ensures var k := other.usedDigits + offset;
              && Sum(bigits[..], k) - borrow * Weight(k)
                 == Sum(old(bigits[..]), k) - other.Mantissa() * Weight(offset)
              && forall j :: k <= j < CAPACITY ==> bigits[j] == old(bigits[j])
    {
      ghost var b0, o := bigits[..], other.bigits[..];
      borrow := 0;
      var i := 0;
      while i < other.usedDigits
        invariant 0 <= i <= other.usedDigits && 0 <= borrow <= 1
        invariant forall j :: i + offset <= j < CAPACITY ==> bigits[j] == b0[j]
        invariant other.bigits[..] == o
        invariant Sum(bigits[..], i + offset) - borrow * Weight(i + offset)
               == Sum(b0, i + offset) - 1 * (Sum(o, i) * Weight(offset))
      {
        var difference := (bigits[i + offset] - other.bigits[i] - borrow) % CHUNK;
        WrappedDifference(bigits[i + offset] - other.bigits[i] - borrow);
        ghost var before, borrow0 := bigits[..], borrow;
        bigits[i + offset] := difference % BASE;
        borrow := difference / 0x8000_0000;
        assert bigits[..] == before[i + offset := bigits[i + offset]];
        SubtractStep(before, bigits[..], b0, o, i, offset, 1, borrow0, borrow);
        i := i + 1;
      }
    }

    /** Bigit k pays for a borrow, on a word that wraps at 2^32. */
    method TakeBorrow(k: nat, borrow: nat, ghost b0: seq<Bigit>, ghost removed: int) returns (next: nat)
      requires Valid() && k < usedDigits && borrow < BASE
      requires |b0| == CAPACITY && bigits[k] == b0[k]
      requires Sum(bigits[..], k) - borrow * Weight(k) == Sum(b0, k) - removed
      modifies bigits
      ensures Valid() && next <= 1
      ensures forall j :: 0 <= j < CAPACITY && j != k ==> bigits[j] == old(bigits[j])
      ensures Sum(bigits[..], k + 1) - next * Weight(k + 1) == Sum(b0, k + 1) - removed
    {
      var difference := (bigits[k] - borrow) % CHUNK;
      WrappedDifference(bigits[k] - borrow);
      bigits[k] := difference % BASE;
      next := difference / 0x8000_0000;
      assert bigits[..] == old(bigits[..])[k := bigits[k]];
      RippleStep(old(bigits[..]), bigits[..], b0, k, removed, borrow, next);
    }

    /** The second loop of SubtractBignum: a borrow moves up until a bigit can pay for it. */
    method RippleBorrow(carried: nat, start: nat, ghost b0: seq<Bigit>, ghost removed: int)
      requires Valid() && 0 <= carried <= 1 && start <= usedDigits
      requires |b0| == CAPACITY && removed <= Sum(b0, usedDigits)
      requires forall j :: start <= j < CAPACITY ==> bigits[j] == b0[j]
      requires Sum(bigits[..], start) - carried * Weight(start) == Sum(b0, start) - removed
      modifies bigits
      ensures Valid() && Mantissa() == Sum(b0, usedDigits) - removed
    {
      var borrow: nat := carried;
      var k := start;
      while borrow != 0
        invariant start <= k <= usedDigits && 0 <= borrow <= 1
        invariant forall j :: k <= j < CAPACITY ==> bigits[j] == b0[j]
        invariant Sum(bigits[..], k) - borrow * Weight(k) == Sum(b0, k) - removed
        decreases usedDigits - k
      {
        if k == usedDigits {
          NoBorrowLeft(bigits[..], k, borrow, Sum(b0, usedDigits) - removed);
          assert false;
        }
        borrow := TakeBorrow(k, borrow, b0, removed);
        k := k + 1;
      }
      SumTailAgree(bigits[..], b0, k, usedDigits);
    }

    /** Subtracts factor * other in one pass; small factors are plain repeated subtraction. */
    method SubtractTimes(other: Bignum, factor: nat)
      requires Normal() && other.Normal() && other.bigits != bigits
      requires exponent <= other.exponent && factor < 0x1_0000
      requires factor * other.Value() <= Value()
      modifies this, bigits
      ensures Normal() && Value() == old(Value()) - factor * other.Value()
      ensures BigitLength() <= old(BigitLength()) && exponent <= other.exponent
    {
      hide Weight, Sum, Scaled;
      if factor < 3 {
        var i := 0;
        while i < factor
          invariant 0 <= i <= factor
          invariant Normal() && Value() == old(Value()) - i * other.Value()
          invariant exponent <= other.exponent && BigitLength() <= old(BigitLength())
        {
          SubtractBignum(other);
          i := i + 1;
        }
        return;
      }
      ghost var b0 := bigits[..];
      ghost var removed := SubtrahendFits(other, factor);
      var exponentDiff := other.exponent - exponent;
      var borrow := SubtractTimesColumns(other, factor, exponentDiff);
      var done := RippleTimesBorrow(borrow, other.usedDigits + exponentDiff, b0, removed);
      if done {
        return;
      }
      Clamp();
    }

    /** The column loop of SubtractTimes: borrow stays below factor + 2 and no word wraps unnoticed. */
    method SubtractTimesColumns(other: Bignum, factor: nat, offset: nat) returns (borrow: nat)
      requires Valid() && other.Valid() && other.bigits != bigits
      requires other.usedDigits + offset <= usedDigits && factor < 0x1_0000
      modifies bigits
      ensures Valid() && borrow <= factor + 1
      ensures var k := other.usedDigits + offset;
              && Sum(bigits[..], k) - borrow * Weight(k)
                 == Sum(old(bigits[..]), k) - factor * (other.Mantissa() * Weight(offset))
              && forall j :: k <= j < CAPACITY ==> bigits[j] == old(bigits[j])
    {
      hide Weight, Scaled;
      ghost var b0, o := bigits[..], other.bigits[..];
      borrow := 0;
      var i := 0;
      while i < other.usedDigits
        invariant 0 <= i <= other.usedDigits && borrow <= factor + 1
        invariant forall j :: i + offset <= j < CAPACITY ==> bigits[j] == b0[j]
        invariant other.bigits[..] == o
        invariant Sum(bigits[..], i + offset) - borrow * Weight(i + offset)
               == Sum(b0, i + offset) - factor * (Sum(o, i) * Weight(offset))
      {
        var product := factor * other.bigits[i];
        MulMonotone(other.bigits[i], BASE - 1, factor);
        MulMonotone(0, other.bigits[i], factor);
        var remove := borrow + product;
        assert remove < DOUBLE_CHUNK;
        var difference := (bigits[i + offset] - remove % BASE) % CHUNK;
        WrappedColumn(bigits[i + offset], remove);
        ghost var before, borrow0 := bigits[..], borrow;
        bigits[i + offset] := difference % BASE;
        borrow := difference / 0x8000_0000 + remove / BASE;
        assert bigits[..] == before[i + offset := bigits[i + offset]];
        SubtractStep(before, bigits[..], b0, o, i, offset, factor, borrow0, borrow);
        i := i + 1;
      }
    }

    /** The second loop of SubtractTimes, with its early return once nothing is left to borrow. */
    method RippleTimesBorrow(carried: nat, start: nat, ghost b0: seq<Bigit>, ghost removed: int)
      returns (done: bool)
      requires Valid() && carried < BASE && start <= usedDigits
      requires |b0| == CAPACITY && removed <= Sum(b0, usedDigits)
      requires forall j :: start <= j < CAPACITY ==> bigits[j] == b0[j]
      requires Sum(bigits[..], start) - carried * Weight(start) == Sum(b0, start) - removed
      modifies bigits
      ensures Valid() && Mantissa() == Sum(b0, usedDigits) - removed
      ensures done ==> usedDigits > 0 && bigits[usedDigits - 1] == b0[usedDigits - 1]
    {
      var borrow: nat := carried;
      var k := start;
      while k < usedDigits
        invariant start <= k <= usedDigits && 0 <= borrow < BASE
        invariant forall j :: k <= j < CAPACITY ==> bigits[j] == b0[j]
        invariant Sum(bigits[..], k) - borrow * Weight(k) == Sum(b0, k) - removed
      {
        if borrow == 0 {
          SumTailAgree(bigits[..], b0, k, usedDigits);
          return true;
        }
        borrow := TakeBorrow(k, borrow, b0, removed);
        k := k + 1;
      }
      NoBorrowLeft(bigits[..], k, borrow, Sum(b0, usedDigits) - removed);
      return false;
    }

    method BigitsShiftLeft(shiftAmount: nat)
      requires Valid() && usedDigits < CAPACITY && shiftAmount < BIGIT_SIZE
      requires usedDigits > 0
      modifies this, bigits
      ensures Valid() && exponent == old(exponent) && old(usedDigits) <= usedDigits <= old(usedDigits) + 1
      ensures Mantissa() == old(Mantissa()) * Pow(2, shiftAmount)
      ensures old(IsClamped()) ==> IsClamped()
    {
      hide Weight, Scaled;
      var carry := ShiftColumns(shiftAmount);
      if carry != 0 {
        ghost var before := bigits[..];
        bigits[usedDigits] := carry;
        assert bigits[..] == before[usedDigits := bigits[usedDigits]];
        StoreDigit(before, bigits[..], usedDigits, carry);
        usedDigits := usedDigits + 1;
      }
    }

    /** The loop of BigitsShiftLeft, in chunks that wrap at 2^32 before they are masked. */
    method ShiftColumns(shiftAmount: nat) returns (carry: nat)
      requires Valid() && shiftAmount < BIGIT_SIZE
      modifies bigits
      ensures Valid() && carry < BASE
      ensures Mantissa() + carry * Weight(usedDigits) == old(Mantissa()) * Pow(2, shiftAmount)
      ensures usedDigits > 0 && old(bigits[usedDigits - 1]) != 0 && carry == 0 ==> bigits[usedDigits - 1] != 0
    {
      hide Weight, Scaled;
      ghost var b0 := bigits[..];
      var p, q := Pow(2, shiftAmount), Pow(2, BIGIT_SIZE - shiftAmount);
      PowersOfBigit(shiftAmount);
      carry := 0;
      var i := 0;
      while i < usedDigits
        invariant 0 <= i <= usedDigits && Valid()
        invariant forall j :: i <= j < CAPACITY ==> bigits[j] == b0[j]
        invariant carry < p
        invariant Sum(bigits[..], i) + carry * Weight(i) == Sum(b0, i) * p
        invariant i > 0 && b0[i - 1] != 0 && carry == 0 ==> bigits[i - 1] != 0
      {
        ghost var total := ShiftedColumn(bigits[i], p, q, carry);
        var newCarry := bigits[i] / q;
        ghost var before, carry0 := bigits[..], carry;
        bigits[i] := ((bigits[i] * p) % CHUNK + carry) % CHUNK % BASE;
        carry := newCarry;
        assert bigits[..] == before[i := bigits[i]];
        MultiplyStep(before, bigits[..], b0, i, p, carry0, total);
        i := i + 1;
      }
    }

    /** Whole bigits go into the hidden exponent, the rest of the shift into the stored ones. */
    method ShiftLeft(shiftAmount: nat)
      requires Valid() && usedDigits < CAPACITY
      modifies this, bigits
      ensures Valid() && Value() == old(Value()) * Pow(2, shiftAmount)
      ensures usedDigits <= old(usedDigits) + 1
      ensures Mantissa() == old(Mantissa()) * Pow(2, shiftAmount % BIGIT_SIZE)
      ensures old(IsClamped()) ==> IsClamped()
    {
      if usedDigits == 0 {
        return;
      }
      ghost var m := Mantissa();
      SplitShift(m, exponent, shiftAmount);
      exponent := exponent + shiftAmount / BIGIT_SIZE;
      var localShift := shiftAmount % BIGIT_SIZE;
      BigitsShiftLeft(localShift);
    }

    method AddUInt64(operand: nat)
      requires Normal() && operand < DOUBLE_CHUNK
      requires BigitLength() < CAPACITY - 3
      modifies this, bigits
      ensures Normal() && Value() == old(Value()) + operand
    {
      if operand == 0 {
        return;
      }
      var other := new Bignum();
      other.AssignUInt64(operand);
      AddBignum(other);
    }

    method AddBignum(other: Bignum)
      requires Normal() && other.Normal() && other.bigits != bigits
      requires 1 + Max(BigitLength(), other.BigitLength()) - Min(exponent, other.exponent) <= CAPACITY
      modifies this, bigits
      ensures Normal() && Value() == old(Value()) + other.Value()
    {
      Align(other);
      AddAligned(other);
    }

    method AddAligned(other: Bignum)
      requires Normal() && other.Normal() && other.bigits != bigits && exponent <= other.exponent
      requires usedDigits < CAPACITY && other.BigitLength() - exponent < CAPACITY
      modifies this, bigits
      ensures Normal() && Value() == old(Value()) + other.Value()
    {
      ghost var offset := other.exponent - exponent;
      SumOfValues(Mantissa(), other.Mantissa(), offset, exponent);
      var used := AddDigits(other);
      usedDigits := used;
    }

    /** Both loops of AddBignum: the top bigit stays non-zero. */
    method AddDigits(other: Bignum) returns (used: nat)
      requires Normal() && other.Normal() && other.bigits != bigits && exponent <= other.exponent
      requires usedDigits < CAPACITY && other.BigitLength() - exponent < CAPACITY
      modifies bigits
      ensures usedDigits <= used <= CAPACITY
      ensures forall j :: used <= j < CAPACITY ==> bigits[j] == 0
      ensures used > 0 ==> bigits[used - 1] != 0
      ensures Sum(bigits[..], used) == old(Mantissa()) + other.Mantissa() * Weight(other.exponent - exponent)
    {
      hide Weight, Sum, Scaled;
      var offset := other.exponent - exponent;
      var start := other.usedDigits + offset;
      ghost var b0 := bigits[..];
      ghost var top := if usedDigits >= start then usedDigits else start;
      SumZeroTail(b0, usedDigits, top + 1);
      var carry := AddColumns(other, offset);
      var pos := RippleCarry(carry, start, top, b0, other.Mantissa() * Weight(offset));
      used := if pos > usedDigits then pos else usedDigits;
      SumZeroTail(bigits[..], used, top + 1);
      if pos == start {
        assert other.usedDigits > 0 ==> bigits[pos - 1] != 0;
      }
      if pos < usedDigits {
        assert bigits[usedDigits - 1] == b0[usedDigits - 1];
      }
    }

    /** The column loop of AddBignum. */
    method AddColumns(other: Bignum, offset: nat) returns (carry: nat)
      requires Valid() && other.Valid() && other.bigits != bigits
      requires other.usedDigits + offset <= CAPACITY
      modifies bigits
      ensures bigits.Length == CAPACITY && carry <= 1
      ensures var k := other.usedDigits + offset;
              && Sum(bigits[..], k) + carry * Weight(k)
                 == Sum(old(bigits[..]), k) + other.Mantissa() * Weight(offset)
              && (forall j :: k <= j < CAPACITY ==> bigits[j] == old(bigits[j]))
              && (other.usedDigits > 0 && carry == 0 && other.bigits[other.usedDigits - 1] != 0 ==> bigits[k - 1] != 0)
              && (other.usedDigits == 0 ==> carry == 0 && bigits[..] == old(bigits[..]))
    {
      hide Weight, Scaled;
      ghost var b0, o := bigits[..], other.bigits[..];
      carry := 0;
      var i := 0;
      while i < other.usedDigits
        invariant 0 <= i <= other.usedDigits && 0 <= carry <= 1
        invariant forall j :: i + offset <= j < CAPACITY ==> bigits[j] == b0[j]
        invariant other.bigits[..] == o
        invariant i == 0 ==> bigits[..] == b0 && carry == 0
        invariant i > 0 && carry == 0 && o[i - 1] != 0 ==> bigits[i + offset - 1] != 0
        invariant Sum(bigits[..], i + offset) + carry * Weight(i + offset)
               == Sum(b0, i + offset) + Sum(o, i) * Weight(offset)
      {
        carry := AddColumn(i, offset, other.bigits[i], carry, b0, o);
        i := i + 1;
      }
    }

    /** One column of AddBignum. */
    method AddColumn(i: nat, offset: nat, digit: Bigit, carry: nat, ghost b0: seq<Bigit>, ghost o: seq<Bigit>)
      returns (next: nat)
      requires bigits.Length == CAPACITY == |b0| && i < |o| && i + offset < CAPACITY && carry <= 1
      requires digit == o[i] && bigits[i + offset] == b0[i + offset]
      requires Sum(bigits[..], i + offset) + carry * Weight(i + offset)
            == Sum(b0, i + offset) + Sum(o, i) * Weight(offset)
      modifies bigits
      ensures next <= 1 && (next == 0 && digit != 0 ==> bigits[i + offset] != 0)
      ensures forall j :: 0 <= j < CAPACITY && j != i + offset ==> bigits[j] == old(bigits[j])
      ensures Sum(bigits[..], i + 1 + offset) + next * Weight(i + 1 + offset)
           == Sum(b0, i + 1 + offset) + Sum(o, i + 1) * Weight(offset)
    {
      var sum := bigits[i + offset] + digit + carry;
      assert sum < CHUNK;
      bigits[i + offset] := sum % BASE;
      next := sum / BASE;
      assert bigits[..] == old(bigits[..])[i + offset := bigits[i + offset]];
      AddStep(old(bigits[..]), bigits[..], b0, o, i, offset, carry);
    }

    /** The second loop of AddBignum: a carry moves up, at most one place above both numbers. */
    method RippleCarry(carried: nat, start: nat, ghost top: nat, ghost b0: seq<Bigit>, ghost added: int)
      returns (pos: nat)
      requires bigits.Length == CAPACITY && carried <= 1 && start <= top < CAPACITY == |b0|
      requires forall j :: start <= j < CAPACITY ==> bigits[j] == b0[j]
      requires forall j :: top <= j < CAPACITY ==> b0[j] == 0
      requires Sum(bigits[..], start) + carried * Weight(start) == Sum(b0, start) + added
      modifies bigits
      ensures start <= pos <= top + 1
      ensures forall j :: 0 <= j < start || pos <= j < CAPACITY ==> bigits[j] == old(bigits[j])
      ensures pos == start ==> carried == 0
      ensures pos > start ==> bigits[pos - 1] != 0
      ensures Sum(bigits[..], top + 1) == Sum(b0, top + 1) + added
    {
      var carry: nat := carried;
      pos := start;
      while carry != 0
        invariant start <= pos <= top + 1 && 0 <= carry <= 1 && (pos == top + 1 ==> carry == 0)
        invariant pos == start ==> carry == carried
        invariant forall j :: 0 <= j < start || pos <= j < CAPACITY ==> bigits[j] == old(bigits[j])
        invariant pos > start && carry == 0 ==> bigits[pos - 1] != 0
        invariant Sum(bigits[..], pos) + carry * Weight(pos) == Sum(b0, pos) + added
        decreases top + 1 - pos
      {
        var sum := bigits[pos] + carry;
        ghost var before := bigits[..];
        bigits[pos] := sum % BASE;
        assert bigits[..] == before[pos := bigits[pos]];
        CarryStep(before, bigits[..], b0, pos, added, carry);
        carry := sum / BASE;
        pos := pos + 1;
      }
      SumTailAgree(bigits[..], b0, pos, top + 1);
    }

    /** 5^exponent in word-sized steps, then a shift for the factors of two. */
    method MultiplyByPowerOfTen(power: nat)
      requires Normal() && Mantissa() * Pow(5, power) < Weight(bigits.Length - 1)
      modifies this, bigits
      ensures Normal() && Value() == old(Value()) * Pow(10, power)
      ensures Mantissa() == old(Mantissa()) * Pow(5, power) * Pow(2, power % BIGIT_SIZE)
    {
      hide Weight, TimesFives;
      if power == 0 {
        return;
      }
      if usedDigits == 0 {
        return;
      }
      ghost var m, v, e := Mantissa(), Value(), exponent;
      WeightMonotone(bigits.Length - 1, bigits.Length);
      FivesFit(m, power, Weight(bigits.Length));
      MultiplyByFives(power, m);
      ProductOfFives(m, power);
      LengthFromMantissa(bigits.Length - 1);
      assert Value() == TimesFives(v, power) by {
        ProductOfFives(v, power);
        ScaledProduct(m, Pow(5, power), e);
      }
      ShiftLeft(power);
      PowerOfTenParts(v, power);
    }

    /** The word-sized steps of MultiplyByPowerOfTen. */
    method MultiplyByFives(power: nat, ghost m: nat)
      requires Normal() && Mantissa() == m
      requires forall k: nat :: k <= power ==> TimesFives(m, k) < Weight(bigits.Length)
      modifies this, bigits
      ensures Normal() && Mantissa() == TimesFives(m, power) && exponent == old(exponent)
    {
      hide Weight, Sum, Scaled, Pow;
      var remaining := power;
      while remaining >= 27
        invariant 0 <= remaining <= power && Normal() && exponent == old(exponent)
        invariant Mantissa() == TimesFives(m, power - remaining)
      {
        TwentySevenFives();
        FiveStep(m, power - remaining, 27, FIVE_27);
        MultiplyByUInt64(FIVE_27);
        remaining := remaining - 27;
      }
      while remaining >= 13
        invariant 0 <= remaining <= power && Normal() && exponent == old(exponent)
        invariant Mantissa() == TimesFives(m, power - remaining)
      {
        SmallPowersOfFive(13);
        remaining := MultiplyByFewFives(power, remaining, 13, FIVE_13, m);
      }
      if remaining > 0 {
        SmallPowersOfFive(remaining);
        remaining := MultiplyByFewFives(power, remaining, remaining, FIVE_1_TO_12[remaining - 1], m);
      }
    }

    method MultiplyByFewFives(ghost power: nat, remaining: nat, k: nat, factor: nat, ghost m: nat)
      returns (left: nat)
      requires Normal() && k <= remaining <= power && factor == Pow(5, k) < CHUNK
      requires Mantissa() == TimesFives(m, power - remaining)
      requires TimesFives(m, power - remaining + k) < Weight(bigits.Length)
      modifies this, bigits
      ensures Normal() && left == remaining - k && exponent == old(exponent)
      ensures Mantissa() == TimesFives(m, power - left)
    {
      hide Weight, Sum, Scaled, Pow, TimesFives;
      FiveStep(m, power - remaining, k, factor);
      MultiplyByUInt32(factor);
      left := remaining - k;
    }

    /** A clamped mantissa below Weight(n) takes at most n bigits. */
    lemma LengthFromMantissa(n: nat)
      requires Normal() && Mantissa() < Weight(n)
      ensures usedDigits <= n
    {
      if usedDigits > n {
        WeightMonotone(n, usedDigits - 1);
        MulMonotone(1, bigits[..][usedDigits - 1], Weight(usedDigits - 1));
        assert false;
      }
    }

    /** Comba squaring in place: the digits are copied up, then each column is summed and stored. */
    method Square()
      requires Normal() && 2 * usedDigits <= CAPACITY
      modifies this, bigits
      ensures Normal() && Value() == old(Value()) * old(Value())
      ensures Mantissa() == old(Mantissa()) * old(Mantissa())
      ensures exponent == if usedDigits == 0 then 0 else 2 * old(exponent)
    {
      hide Weight, Scaled;
      var n := usedDigits;
      ghost var e := bigits[..n] + seq(n, _ => 0);
      SumAgree(e, bigits[..], n);
      var i := 0;
      while i < n
        modifies bigits
        invariant 0 <= i <= n
        invariant forall j :: 0 <= j < n ==> bigits[j] == e[j]
        invariant forall j :: 0 <= j < i ==> bigits[n + j] == e[j]
        invariant forall j :: 2 * n <= j < CAPACITY ==> bigits[j] == 0
      {
        bigits[n + i] := bigits[i];
        i := i + 1;
      }
      StoreColumns(n, e);
      ColumnsAreSquare(e, n);
      usedDigits := 2 * n;
      exponent := exponent * 2;
      SquaredValue(old(Mantissa()), old(exponent));
      Clamp();
    }

    /** The two column loops of Square. No digit of the copy is read after it was overwritten, and
        the accumulator ends at zero. */
    method StoreColumns(n: nat, ghost e: seq<Bigit>)
      requires bigits.Length == CAPACITY && 2 * n <= CAPACITY && |e| == 2 * n
      requires forall j :: n <= j < 2 * n ==> e[j] == 0
      requires forall j :: 0 <= j < n ==> bigits[n + j] == e[j]
      modifies bigits
      ensures Sum(bigits[..], 2 * n) == Columns(e, 2 * n)
      ensures forall j :: 2 * n <= j < CAPACITY ==> bigits[j] == old(bigits[j])
    {
      hide Weight;
      var accumulator: nat := 0;
      var i := 0;
      while i < n
        invariant 0 <= i <= n && accumulator < ACCUMULATOR_LIMIT
        invariant forall j :: 0 <= j < n ==> bigits[n + j] == e[j]
        invariant forall j :: 2 * n <= j < CAPACITY ==> bigits[j] == old(bigits[j])
        invariant Sum(bigits[..], i) + accumulator * Weight(i) == Columns(e, i)
      {
        accumulator := SumLowColumn(n, i, accumulator, e);
        accumulator := StoreColumn(i, accumulator, e);
        i := i + 1;
      }
      while i < 2 * n
        invariant n <= i <= 2 * n && accumulator < ACCUMULATOR_LIMIT
        invariant forall j :: i - n <= j < n ==> bigits[n + j] == e[j]
        invariant forall j :: 2 * n <= j < CAPACITY ==> bigits[j] == old(bigits[j])
        invariant Sum(bigits[..], i) + accumulator * Weight(i) == Columns(e, i)
      {
        accumulator := SumHighColumn(n, i, accumulator, e);
        accumulator := StoreColumn(i, accumulator, e);
        i := i + 1;
      }
      SquareFits(e, n, Sum(bigits[..], 2 * n), accumulator);
    }

    /** The square of n digits has at most 2 n, so nothing is left in the accumulator. */
    static lemma SquareFits(e: seq<Bigit>, n: nat, low: nat, accumulator: nat)
      requires |e| == 2 * n && forall j :: n <= j < 2 * n ==> e[j] == 0
      requires low + accumulator * Weight(2 * n) == Columns(e, 2 * n)
      ensures accumulator == 0
    {
      hide Sum, Weight, Columns;
      ColumnsAreSquare(e, n);
      SumBound(e, n);
      WeightAdd(n, n);
      MulMonotone(Sum(e, n), Weight(n), Sum(e, n));
      MulStrict(Sum(e, n), Weight(n), Weight(n));
      NoCarryLeft(low, accumulator, Weight(2 * n));
    }

    method StoreColumn(i: nat, total: nat, ghost e: seq<Bigit>) returns (accumulator: nat)
      requires bigits.Length == CAPACITY && i < |e| <= CAPACITY && total < DOUBLE_CHUNK
      requires Sum(bigits[..], i) + total * Weight(i) == Columns(e, i) + Pairs(e, i, i + 1) * Weight(i)
      modifies bigits
      ensures forall j :: 0 <= j < CAPACITY && j != i ==> bigits[j] == old(bigits[j])
      ensures accumulator < ACCUMULATOR_LIMIT
      ensures Sum(bigits[..], i + 1) + accumulator * Weight(i + 1) == Columns(e, i + 1)
    {
      bigits[i] := (total % CHUNK) % BASE;
      MaskOfChunk(total);
      assert bigits[..] == old(bigits[..])[i := bigits[i]];
      StoreDigit(old(bigits[..]), bigits[..], i, total);
      accumulator := total / BASE;
    }

    method SumLowColumn(n: nat, i: nat, accumulator: nat, ghost e: seq<Bigit>) returns (total: nat)
      requires bigits.Length == CAPACITY && i < n && 2 * n <= CAPACITY && |e| == 2 * n
      requires forall j :: 0 <= j < n ==> bigits[n + j] == e[j]
      requires accumulator < ACCUMULATOR_LIMIT
      ensures total == accumulator + Pairs(e, i, i + 1) && total < DOUBLE_CHUNK
      ensures total * Weight(i) == accumulator * Weight(i) + Pairs(e, i, i + 1) * Weight(i)
    {
      total := accumulator;
      var index1: int, index2: int := i, 0;
      while index1 >= 0
        invariant -1 <= index1 && index1 + index2 == i
        invariant total == accumulator + Pairs(e, i, index2)
        invariant total <= ACCUMULATOR_LIMIT + index2 * 0x100_0000_0000_0000
        decreases index1
      {
        DigitProduct(bigits[n + index1], bigits[n + index2]);
        total := total + (bigits[n + index1] as int) * bigits[n + index2];
        index1 := index1 - 1;
        index2 := index2 + 1;
      }
      SumColumn(accumulator, Pairs(e, i, i + 1), 0, Weight(i));
    }

    method SumHighColumn(n: nat, i: nat, accumulator: nat, ghost e: seq<Bigit>) returns (total: nat)
      requires bigits.Length == CAPACITY && n <= i < 2 * n <= CAPACITY && |e| == 2 * n
      requires forall j :: n <= j < 2 * n ==> e[j] == 0
      requires forall j :: i - n <= j < n ==> bigits[n + j] == e[j]
      requires accumulator < ACCUMULATOR_LIMIT
      ensures total == accumulator + Pairs(e, i, i + 1) && total < DOUBLE_CHUNK
      ensures total * Weight(i) == accumulator * Weight(i) + Pairs(e, i, i + 1) * Weight(i)
    {
      total := accumulator;
      var index1: int := n - 1;
      var index2 := i - index1;
      PairsFromTop(e, i, n, index2);
      while index2 < n
        invariant i - n + 1 <= index2 <= n && index1 + index2 == i
        invariant total == accumulator + Pairs(e, i, index2)
        invariant total <= ACCUMULATOR_LIMIT + index2 * 0x100_0000_0000_0000
      {
        DigitProduct(bigits[n + index1], bigits[n + index2]);
        total := total + (bigits[n + index1] as int) * bigits[n + index2];
        index1 := index1 - 1;
        index2 := index2 + 1;
      }
      PairsToTop(e, i, n, i + 1);
      SumColumn(accumulator, Pairs(e, i, i + 1), 0, Weight(i));
    }

    /** Left-to-right binary exponentiation: in a 64-bit word as long as it lasts, then in place. */
    method AssignPowerUInt16(base: nat, powerExponent: nat)
      requires Valid() && 0 < base < 0x1_0000
      requires BitSize(OddPart(base)) * powerExponent / BIGIT_SIZE + 2 <= CAPACITY
      modifies this, bigits
      ensures Normal() && Value() == Pow(base, powerExponent)
    {
      if powerExponent == 0 {
        AssignUInt16(1);
        return;
      }
      Zero();
      var odd, shifts := RemoveTwos(base);
      var bitSize := CountBits(odd);
      AssignOddPower(odd, bitSize, powerExponent);
      PowerParts(odd, shifts, base, powerExponent);
      ShiftLeft(shifts * powerExponent);
    }

    method AssignOddPower(odd: nat, bitSize: nat, powerExponent: nat)
      requires Valid() && powerExponent > 0
      requires 0 < odd < 0x1_0000 && odd < Pow(2, bitSize) && bitSize <= 16
      requires bitSize * powerExponent / BIGIT_SIZE + 2 <= CAPACITY
      modifies this, bigits
      ensures Normal() && usedDigits < CAPACITY && Value() == Pow(odd, powerExponent)
    {
      var mask;
      ghost var r;
      mask, r := FirstMask(powerExponent);
      var thisValue, delayed;
      thisValue, mask, delayed, r := WordPower(odd, bitSize, powerExponent, mask, r);
      AssignUInt64(thisValue);
      MantissaIsValue();
      if delayed {
        PowerFits(odd, bitSize, Prefix(powerExponent, r), powerExponent, r, bigits.Length);
        MultiplyByUInt32(odd);
      }
      BigPower(odd, bitSize, powerExponent, mask, r);
      PowerFits(odd, bitSize, powerExponent, powerExponent, 0, bigits.Length);
      LengthFromMantissa(bigits.Length - 1);
    }

    lemma MantissaIsValue()
      requires Valid() && exponent == 0
      ensures Value() == Mantissa()
    {
    }

    /** The last loop of AssignPowerUInt16: squares and multiplications on the bignum itself. */
    method BigPower(odd: nat, ghost bitSize: nat, powerExponent: nat, mask0: nat, ghost r0: nat)
      requires Normal() && exponent == 0 && mask0 == Mask(r0)
      requires 0 < odd < 0x1_0000 && odd < Pow(2, bitSize)
      requires bitSize * powerExponent / BIGIT_SIZE + 2 <= CAPACITY
      requires Mantissa() == Pow(odd, Prefix(powerExponent, r0))
      modifies this, bigits
      ensures Normal() && exponent == 0 && Mantissa() == Pow(odd, powerExponent)
    {
      var mask := mask0;
      ghost var r := r0;
      while mask != 0
        invariant Normal() && exponent == 0 && mask == Mask(r)
        invariant Mantissa() == Pow(odd, Prefix(powerExponent, r))
        decreases mask
      {
        SquareAndMultiply(odd, bitSize, powerExponent, mask, r);
        HalfMask(r);
        mask := mask / 2;
        r := r - 1;
      }
    }

    method SquareAndMultiply(odd: nat, ghost bitSize: nat, powerExponent: nat, mask: nat, ghost r: nat)
      requires Normal() && exponent == 0 && mask == Mask(r) && r > 0
      requires 0 < odd < 0x1_0000 && odd < Pow(2, bitSize)
      requires bitSize * powerExponent / BIGIT_SIZE + 2 <= CAPACITY
      requires Mantissa() == Pow(odd, Prefix(powerExponent, r))
      modifies this, bigits
      ensures Normal() && exponent == 0 && Mantissa() == Pow(odd, Prefix(powerExponent, r - 1))
    {
      HalfPowerFits(odd, bitSize, powerExponent, r, bigits.Length);
      LengthFromMantissa(bigits.Length / 2);
      Square();
      SquaredPower(odd, powerExponent, r);
      PowerFits(odd, bitSize, Prefix(powerExponent, r - 1), powerExponent, r - 1, bigits.Length);
      if (powerExponent / mask) % 2 != 0 {
        MultiplyByUInt32(odd);
      }
    }

    /** Leaves the remainder in place and returns the quotient, which must fit 16 bits; when this
        is longer than the divisor, the divisor's top bigit has to be large enough. */
    method DivideModuloIntBignum(other: Bignum) returns (result: nat)
      requires Normal() && other.Normal() && other.bigits != bigits
      requires other.Value() > 0 && Value() < 0x1_0000 * other.Value()
      requires BitsForDivision(other)
      requires BigitLength() - Min(exponent, other.exponent) <= CAPACITY
      modifies this, bigits
      ensures Normal() && result == old(Value()) / other.Value() && Value() == old(Value()) % other.Value()
      ensures Value() < other.Value() && old(Value()) == result * other.Value() + Value()
    {
      hide Weight, Sum, Scaled;
      LengthBounds();
      other.LengthBounds();
      if BigitLength() < other.BigitLength() {
        WeightMonotone(BigitLength(), other.BigitLength() - 1);
        Quotient(Value(), other.Value(), 0, Value());
        return 0;
      }
      Align(other);
      ghost var v := Value();
      result := DivideLonger(other);
      result := DivideTop(other, result, v);
      Quotient(v, other.Value(), result, Value());
    }

    ghost predicate BitsForDivision(other: Bignum)
      requires Valid() && other.Valid()
      reads this, bigits, other, other.bigits
    {
      BigitLength() > other.BigitLength() && other.usedDigits > 0 ==> other.bigits[other.usedDigits - 1] >= BASE / 16
    }

    /** The first loop of DivideModuloIntBignum: as long as this has a bigit more than other, the
        top bigit says how many multiples can be removed for certain. */
    method DivideLonger(other: Bignum) returns (result: nat)
      requires Normal() && other.Normal() && other.bigits != bigits && exponent <= other.exponent
      requires other.usedDigits > 0 && Value() < 0x1_0000 * other.Value()
      requires BigitLength() >= other.BigitLength() && BitsForDivision(other)
      modifies this, bigits
      ensures Normal() && exponent <= other.exponent && BigitLength() <= other.BigitLength()
      ensures old(Value()) == result * other.Value() + Value() && 0 <= result < 0x1_0000
      ensures usedDigits > 0 && 0 < other.Value() < Weight(other.BigitLength())
      ensures Value() == LeftOver(old(Value()), other.Value(), Weight(other.BigitLength()))
      ensures BigitLength() == other.BigitLength() <==> Weight(other.BigitLength() - 1) <= Value()
      ensures KeepsLength(other) ==> BigitLength() == other.BigitLength()
    {
      hide Weight, Sum, Scaled, Value, LeftOver, KeepsUnit;
      ghost var v, o, length := Value(), other.Value(), other.BigitLength();
      result := 0;
      LengthBounds();
      other.LengthBounds();
      WeightMonotone(length - 1, BigitLength() - 1);
      while BigitLength() > other.BigitLength()
        invariant Normal() && exponent <= other.exponent && usedDigits > 0
        invariant other.Normal() && other.usedDigits > 0 && other.Value() == o && BitsForDivision(other)
        invariant v == result * o + Value() && 0 <= result < 0x1_0000
        invariant other.BigitLength() == length && o < Weight(length)
        invariant LeftOver(v, o, Weight(length)) == LeftOver(Value(), o, Weight(length))
        decreases Value()
      {
        assert other.bigits[other.usedDigits - 1] >= BASE / 16;
        ghost var before := Value();
        SmallerDividend(v, o, result, before);
        var top := RemoveTop(other);
        EstimateFits(v, o, result, top, before);
        LeftOverStep(before, o, Weight(length), top, Value());
        result := result + top;
      }
      LengthBounds();
      WeightMonotone(BigitLength(), length);
      LeftOverEnds(Value(), o, Weight(length));
      WeightStep(length - 1);
      if BigitLength() < length {
        WeightMonotone(BigitLength(), length - 1);
      }
      if KeepsLength(other) {
        LeavesEnough(v, o, Weight(length - 1));
      }
    }

    method RemoveTop(other: Bignum) returns (top: nat)
      requires Normal() && other.Normal() && other.bigits != bigits && exponent <= other.exponent
      requires other.usedDigits > 0 && Value() < 0x1_0000 * other.Value()
      requires BigitLength() > other.BigitLength() && usedDigits > 0
      modifies this, bigits
      ensures Normal() && exponent <= other.exponent && BigitLength() <= old(BigitLength())
      ensures 0 < top < 0x1_0000 && 0 < Value() == old(Value()) - top * other.Value() < old(Value())
      ensures usedDigits > 0 && Weight(other.BigitLength()) <= old(Value())
      ensures top == old(Value()) / Weight(other.BigitLength())
    {
      top := bigits[usedDigits - 1];
      TopMultiples(other);
      assert top < 0x1_0000;
      SubtractTimes(other, top);
      LengthBounds();
    }

    /** When this is longer than other, top * other can be taken away and something remains. */
    lemma TopMultiples(other: Bignum)
      requires Normal() && other.Normal() && usedDigits > 0 && other.usedDigits > 0
      requires BigitLength() > other.BigitLength() && Value() < 0x1_0000 * other.Value()
      ensures var top := bigits[usedDigits - 1];
              && 0 < top < 0x1_0000 && 0 < top * other.Value() < Value()
              && Weight(other.BigitLength()) <= Value() && top == Value() / Weight(other.BigitLength())
    {
      hide Weight, Sum, Scaled;
      var top, length := bigits[usedDigits - 1], other.BigitLength();
      LengthBounds();
      other.LengthBounds();
      TopBigit();
      WeightMonotone(length, BigitLength() - 1);
      TopBounds(top, Value(), other.Value(), Weight(BigitLength() - 1), Weight(length));
      if BigitLength() - 1 > length {
        WeightMonotone(length + 1, BigitLength() - 1);
        WeightStep(length);
      }
      var w := Weight(length);
      assert Weight(BigitLength() - 1) == w;
      assert (top + 1) * w == top * w + w;
      DivIs(Value(), w, top, Value() - top * w);
    }

    /** Whether the divisor leaves no dividend shorter than itself (LengthsAgree). */
    ghost predicate KeepsLength(other: Bignum)
      requires other.Valid() && other.usedDigits > 0
      reads other, other.bigits
    {
      KeepsUnit(other.Value(), Weight(other.BigitLength() - 1))
    }

    /** The top bigit against the whole value. */
    lemma TopBigit()
      requires Valid() && usedDigits > 0
      ensures var top, w := bigits[usedDigits - 1], Weight(BigitLength() - 1);
              && top * w <= Value() < (top + 1) * w
              && (usedDigits == 1 ==> Value() == top * w)
    {
      hide Weight;
      TopParts();
      var t: int, w := bigits[usedDigits - 1], Weight(BigitLength() - 1);
      assert (t + 1) * w == t * w + w;
      ScaledIsProduct(0, exponent);
    }

    /** Only a divisor of several bigits with the greatest top bigit can leave a shorter dividend. */
    lemma TopDecides(other: Bignum)
      requires other.Normal() && other.usedDigits > 0
      ensures other.usedDigits == 1 || other.bigits[other.usedDigits - 1] < BASE - 1 ==> KeepsLength(other)
    {
      hide Weight, Sum, Scaled, Value;
      other.TopBigit();
      TopKeeps(other.bigits[other.usedDigits - 1], other.Value(), Weight(other.BigitLength() - 1));
    }

    /** The rest of DivideModuloIntBignum: an estimate from the top bigits, then a correction. */
    method DivideTop(other: Bignum, result0: nat, ghost v: nat) returns (result: nat)
      requires Normal() && other.Normal() && other.bigits != bigits && exponent <= other.exponent
      requires usedDigits > 0 && other.usedDigits > 0
      requires BigitLength() <= other.BigitLength()
      requires KeepsLength(other) ==> BigitLength() == other.BigitLength()
      requires v == result0 * other.Value() + Value() && v < 0x1_0000 * other.Value()
      modifies this, bigits
      ensures Normal() && v == result * other.Value() + Value() && Value() < other.Value()
      ensures result < 0x1_0000
    {
      hide Weight, Sum, Scaled, Value, KeepsUnit;
      if other.usedDigits == 1 {
        TopDecides(other);
        result := DivideOneBigit(other, result0, v);
        return;
      }
      ghost var o, before := other.Value(), Value();
      var divisionEstimate, exact := DivideEstimate(other);
      EstimateFits(v, o, result0, divisionEstimate, before);
      assert divisionEstimate < 0x1_0000;
      result := result0 + divisionEstimate;
      if exact {
        return;
      }
      result := DivideRest(other, result, v);
    }

    method DivideOneBigit(other: Bignum, result0: nat, ghost v: nat) returns (result: nat)
      requires Normal() && other.Normal() && other.bigits != bigits && exponent <= other.exponent
      requires usedDigits > 0 && other.usedDigits == 1 && BigitLength() == other.BigitLength()
      requires v == result0 * other.Value() + Value() && v < 0x1_0000 * other.Value()
      modifies this, bigits
      ensures Normal() && v == result * other.Value() + Value() && Value() < other.Value()
      ensures result < 0x1_0000
    {
      hide Weight, Sum, Scaled, Value;
      ghost var o, before := other.Value(), Value();
      var quotient := DivideBigit(other);
      EstimateFits(v, o, result0, quotient, before);
      result := result0 + quotient;
    }

    /** Removes the estimated number of multiples; exact says that no further one can fit. */
    method DivideEstimate(other: Bignum) returns (estimate: nat, exact: bool)
      requires Normal() && other.Normal() && other.bigits != bigits && exponent <= other.exponent
      requires usedDigits > 0 && other.usedDigits > 0 && Value() < 0x1_0000 * other.Value()
      requires BigitLength() <= other.BigitLength()
      requires KeepsLength(other) ==> BigitLength() == other.BigitLength()
      modifies this, bigits
      ensures Normal() && exponent <= other.exponent
      ensures 0 <= Value() == old(Value()) - estimate * other.Value()
      ensures exact ==> Value() < other.Value()
    {
      hide Weight, Sum, Scaled;
      var thisBigit: int := bigits[usedDigits - 1];
      var otherBigit: int := other.bigits[other.usedDigits - 1];
      estimate := thisBigit / (otherBigit + 1);
      Estimate(other, estimate);
      EstimateFits(Value(), other.Value(), 0, estimate, Value());
      SubtractTimes(other, estimate);
      exact := otherBigit * (estimate + 1) > thisBigit;
    }

    /** The correction loop: subtract as long as other still fits. */
    method DivideRest(other: Bignum, result0: nat, ghost v: nat) returns (result: nat)
      requires Normal() && other.Normal() && other.bigits != bigits && exponent <= other.exponent
      requires other.Value() > 0 && v == result0 * other.Value() + Value() && v < 0x1_0000 * other.Value()
      modifies this, bigits
      ensures Normal() && v == result * other.Value() + Value() && Value() < other.Value()
      ensures result < 0x1_0000
    {
      hide Weight, Sum, Scaled;
      ghost var o := other.Value();
      result := result0;
      QuotientFits(v, o, result, Value());
      var less := Compare(other, this);
      while less <= 0
        invariant Normal() && other.Normal() && other.Value() == o && exponent <= other.exponent
        invariant less == Sign(o - Value()) && v == result * o + Value() && 0 <= result < 0x1_0000
        decreases Value()
      {
        EstimateFits(v, o, result, 1, Value());
        SubtractBignum(other);
        result := result + 1;
        less := Compare(other, this);
      }
    }

    /** The shortcut of DivideModuloIntBignum for a divisor of one bigit. */
    method DivideBigit(other: Bignum) returns (quotient: nat)
      requires Normal() && other.Normal() && other.bigits != bigits && exponent <= other.exponent
      requires usedDigits > 0 && other.usedDigits == 1 && BigitLength() == other.BigitLength()
      modifies this, bigits
      ensures Normal()
      ensures Value() == old(Value()) - quotient * other.Value() && 0 <= Value() < other.Value()
    {
      ghost var n, e, d := usedDigits - 1, exponent, other.bigits[0];
      var thisBigit: int := bigits[usedDigits - 1];
      var otherBigit: int := other.bigits[other.usedDigits - 1];
      quotient := thisBigit / otherBigit;
      other.TopBigit();
      TopParts();
      ghost var low := Scaled(Sum(bigits[..], n), e);
      BigitDivision(thisBigit, d, quotient, thisBigit - otherBigit * quotient, low, Weight(n + e));
      ReplaceTop(thisBigit - otherBigit * quotient);
      Clamp();
    }

    /** The value as the part below the top bigit and the top bigit's own share. */
    lemma TopParts()
      requires Valid() && usedDigits > 0
      ensures var n := usedDigits - 1;
              var low := Scaled(Sum(bigits[..], n), exponent);
              && low < Weight(n + exponent)
              && Value() == low + bigits[n] * Weight(n + exponent)
    {
      var s, n := bigits[..], usedDigits - 1;
      SumBound(s, n);
      ScaledIsProduct(Sum(s, n), exponent);
      ScaledIsProduct(Sum(s, n + 1), exponent);
      ShiftedDigit(Sum(s, n), s[n], n, exponent);
      WeightAdd(n, exponent);
      MulStrict(Sum(s, n), Weight(n), Weight(exponent));
    }

    method ReplaceTop(rest: Bigit)
      requires Valid() && usedDigits > 0
      modifies bigits
      ensures Valid()
      ensures var n := usedDigits - 1;
              Value() == Scaled(Sum(old(bigits[..]), n), exponent) + rest * Weight(n + exponent)
    {
      bigits[usedDigits - 1] := rest;
      SumAgree(bigits[..], old(bigits[..]), usedDigits - 1);
      TopParts();
    }

    /** The estimate from the top bigits is never too high, and when they say so it is the whole
        quotient. A dividend that became shorter is below the divisor, and its estimate is zero. */
    lemma Estimate(other: Bignum, estimate: nat)
      requires Normal() && other.Normal() && usedDigits > 0 && other.usedDigits > 0
      requires BigitLength() <= other.BigitLength()
      requires KeepsLength(other) ==> BigitLength() == other.BigitLength()
      requires estimate == bigits[usedDigits - 1] / ((other.bigits[other.usedDigits - 1] as int) + 1)
      ensures estimate * other.Value() <= Value()
      ensures other.bigits[other.usedDigits - 1] * (estimate + 1) > bigits[usedDigits - 1]
          ==> Value() - estimate * other.Value() < other.Value()
    {
      hide Weight, Sum, Scaled, Value, KeepsUnit;
      var t, d := bigits[usedDigits - 1], other.bigits[other.usedDigits - 1];
      if BigitLength() == other.BigitLength() {
        TopBigit();
        other.TopBigit();
        EstimateBounds(t, d, estimate, Weight(BigitLength() - 1), Value(), other.Value());
      } else {
        LengthBounds();
        other.LengthBounds();
        WeightMonotone(BigitLength(), other.BigitLength() - 1);
        TopDecides(other);
        assert estimate == 0;
      }
    }

    /** Nineteen digits at a time, as many as a 64-bit word holds for certain. */
    method AssignDecimalString(value: seq<char>)
      requires Valid() && AllDigits(value)
      requires Pow(10, |value|) < Weight(bigits.Length - 4)
      modifies this, bigits
      ensures Normal() && Value() == DecimalValue(value)
    {
      Zero();
      var length, pos := |value|, 0;
      while length >= 19
        invariant 0 <= pos && 0 <= length == |value| - pos && Normal()
        invariant Value() == DecimalValue(value[..pos])
      {
        AppendDigits(value, pos, 19);
        pos := pos + 19;
        length := length - 19;
      }
      AppendDigits(value, pos, length);
      assert value[..pos + length] == value;
      Clamp();
    }

    method AppendDigits(value: seq<char>, pos: nat, length: nat)
      requires Normal() && AllDigits(value) && pos + length <= |value| && length <= 19
      requires Pow(10, |value|) < Weight(bigits.Length - 4)
      requires Value() == DecimalValue(value[..pos])
      modifies this, bigits
      ensures Normal() && Value() == DecimalValue(value[..pos + length])
    {
      var digits := ReadUInt64(value, pos, length);
      assert value[..pos + length] == value[..pos] + value[pos..pos + length];
      DecimalConcat(value[..pos], value[pos..pos + length]);
      DecimalBound(value[..pos + length]);
      DecimalBound(value[pos..pos + length]);
      PowMonotone(10, pos + length, |value|);
      MantissaBelowValue();
      PowBaseMonotone(5, 10, length);
      MulMonotone(Mantissa(), Value(), Pow(5, length));
      MulMonotone(Pow(5, length), Pow(10, length), Value());
      WeightMonotone(bigits.Length - 4, bigits.Length - 1);
      MultiplyByPowerOfTen(length);
      LengthFromValue(bigits.Length - 4);
      AddUInt64(digits);
    }

    lemma MantissaBelowValue()
      requires Valid()
      ensures Mantissa() <= Value()
    {
      ScaledIsProduct(Mantissa(), exponent);
      MulMonotone(1, Weight(exponent), Mantissa());
    }

    method Times10()
      requires Normal() && Value() * 10 < Weight(bigits.Length)
      modifies this, bigits
      ensures Normal() && Value() == old(Value()) * 10
    {
      MantissaBelowValue();
      MultiplyByUInt32(10);
    }

    lemma Size()
      requires Valid()
      ensures bigits.Length == CAPACITY
    {
    }

    /** A quotient below 16 is small enough for any divisor. */
    lemma SmallQuotient(other: Bignum)
      requires Normal() && other.Normal() && Value() < 16 * other.Value()
      ensures BitsForDivision(other)
    {
      hide Weight, Sum, Scaled;
      if BigitLength() > other.BigitLength() && other.usedDigits > 0 {
        LengthBounds();
        other.TopBigit();
        WeightStep(other.BigitLength() - 1);
        WeightMonotone(other.BigitLength(), BigitLength() - 1);
        TopIsLarge(other.bigits[other.usedDigits - 1], Weight(other.BigitLength() - 1), other.Value());
      }
    }

    /** A value below Weight(n) takes at most n bigits, hidden ones included. */
    lemma LengthFromValue(n: nat)
      requires Normal() && Value() < Weight(n)
      ensures BigitLength() <= n
    {
      LengthBounds();
      if BigitLength() > n {
        WeightMonotone(n, BigitLength() - 1);
      }
    }

    /** One column of MultiplyByUInt64, from the two halves of the factor. */
    method MultiplyColumn64(factor: nat, low: nat, high: nat, i: nat, carry: nat, ghost b0: seq<Bigit>)
      returns (next: nat)
      requires Valid() && i < usedDigits && carry < factor < DOUBLE_CHUNK
      requires low == factor % CHUNK && high == factor / CHUNK
      requires |b0| == CAPACITY && bigits[i] == b0[i]
      requires Sum(bigits[..], i) + carry * Weight(i) == Sum(b0, i) * factor
      modifies bigits
      ensures Valid() && next < factor
      ensures forall j :: 0 <= j < CAPACITY && j != i ==> bigits[j] == old(bigits[j])
      ensures Sum(bigits[..], i + 1) + next * Weight(i + 1) == Sum(b0, i + 1) * factor
      ensures b0[i] != 0 && next == 0 ==> bigits[i] != 0
    {
      var productLow := low * bigits[i];
      var productHigh := high * bigits[i];
      var tmp := carry % BASE + productLow;
      ghost var total := HalvesOfProduct(factor, bigits[i], carry);
      assert tmp < DOUBLE_CHUNK && productHigh * 16 < DOUBLE_CHUNK;
      bigits[i] := tmp % BASE;
      next := carry / BASE + tmp / BASE + productHigh * 16;
      assert bigits[..] == old(bigits[..])[i := bigits[i]];
      MultiplyStep(old(bigits[..]), bigits[..], b0, i, factor, carry, total);
    }

    /** One column of MultiplyByUInt32. */
    method MultiplyColumn32(factor: nat, i: nat, carry: nat, ghost b0: seq<Bigit>) returns (next: nat)
      requires Valid() && i < usedDigits && carry < factor < CHUNK
      requires |b0| == CAPACITY && bigits[i] == b0[i]
      requires Sum(bigits[..], i) + carry * Weight(i) == Sum(b0, i) * factor
      modifies bigits
      ensures Valid() && next < factor
      ensures forall j :: 0 <= j < CAPACITY && j != i ==> bigits[j] == old(bigits[j])
      ensures Sum(bigits[..], i + 1) + next * Weight(i + 1) == Sum(b0, i + 1) * factor
      ensures b0[i] != 0 && next == 0 ==> bigits[i] != 0
    {
      var product := factor * bigits[i] + carry;
      ProductBound(factor, bigits[i], carry);
      assert product < DOUBLE_CHUNK;
      bigits[i] := product % BASE;
      assert bigits[..] == old(bigits[..])[i := bigits[i]];
      MultiplyStep(old(bigits[..]), bigits[..], b0, i, factor, carry, product);
      next := product / BASE;
    }

    method AppendBigit(rest: nat) returns (next: nat)
      requires Valid() && usedDigits < CAPACITY && rest > 0 && (usedDigits == 0 ==> exponent == 0)
      modifies this, bigits
      ensures Valid() && next == rest / BASE && exponent == old(exponent)
      ensures usedDigits == old(usedDigits) + 1 && bigits[usedDigits - 1] == rest % BASE
      ensures Mantissa() + next * Weight(usedDigits) == old(Mantissa()) + rest * Weight(old(usedDigits))
    {
      bigits[usedDigits] := rest % BASE;
      assert bigits[..] == old(bigits[..])[usedDigits := bigits[usedDigits]];
      StoreDigit(old(bigits[..]), bigits[..], usedDigits, rest);
      usedDigits := usedDigits + 1;
      next := rest / BASE;
    }

    /** The second loop of both multiplications: what is left of the carry becomes new top bigits. */
    method AppendCarry(carry: nat, ghost product: int)
      requires Valid() && product < Weight(bigits.Length)
      requires Mantissa() + carry * Weight(usedDigits) == product
      requires usedDigits == 0 ==> carry == 0
      modifies this, bigits
      ensures Valid() && Mantissa() == product && exponent == old(exponent)
      ensures carry != 0 || old(IsClamped()) ==> IsClamped()
    {
      var rest: nat := carry;
      while rest != 0
        invariant Valid() && exponent == old(exponent) && (usedDigits == 0 ==> rest == 0)
        invariant Mantissa() + rest * Weight(usedDigits) == product
        invariant (carry != 0 || old(IsClamped())) && rest == 0 ==> IsClamped()
        decreases rest
      {
        RoomForCarry(Mantissa(), rest, usedDigits, product, bigits.Length);
        rest := AppendBigit(rest);
      }
    }
  }

  lemma SumOfValues(m: nat, o: nat, d: nat, e: nat)
    ensures Scaled(m + o * Weight(d), e) == Scaled(m, e) + Scaled(o, d + e)
  {
    ShiftedValue(o, d, e);
    ScaledIsProduct(o * Weight(d), e);
    ScaledIsProduct(m, e);
    ScaledIsProduct(m + o * Weight(d), e);
  }

  lemma PowersOfBigit(n: nat)
    requires n < BIGIT_SIZE
    ensures Pow(2, n) * Pow(2, BIGIT_SIZE - n) == BASE && 1 <= Pow(2, n) < BASE
  {
    PowAdd(2, n, BIGIT_SIZE - n);
    WeightIsPowerOfTwo(1);
    assert Weight(1) == BASE * Weight(0);
    PowStrict(2, n, BIGIT_SIZE);
  }

  /** Shifting a bigit by p = 2^n and keeping what leaves it at the top (q = 2^(28 - n)). */
  lemma ShiftedColumn(bigit: Bigit, p: nat, q: nat, carry: nat) returns (total: nat)
    requires p * q == BASE && carry < p < BASE
    ensures total == p * bigit + carry && q > 0
    ensures total / BASE == bigit / q < p
    ensures total % BASE == ((bigit * p) % CHUNK + carry) % CHUNK % BASE
    ensures bigit != 0 && bigit / q == 0 ==> total % BASE != 0
  {
    MulMonotone(0, bigit, p);
    total := p * bigit + carry;
    assert q > 0;
    var hi, lo := bigit / q, bigit % q;
    HighPart(hi, lo, p, q);
    MaskAfterWrap(bigit * p, carry);
    assert total == hi * BASE + (p * lo + carry);
    if bigit != 0 {
      MulMonotone(1, bigit, p);
    }
  }

  lemma MaskOfChunk(x: nat)
    ensures (x % CHUNK) % BASE == x % BASE
  {
    assert x == x % CHUNK + BASE * (16 * (x / CHUNK));
  }

  lemma MaskAfterWrap(x: nat, carry: nat)
    ensures (x % CHUNK + carry) % CHUNK % BASE == (x + carry) % BASE
  {
    var whole := x / CHUNK + (x % CHUNK + carry) / CHUNK;
    assert x + carry == (x % CHUNK + carry) % CHUNK + BASE * (16 * whole);
  }

  lemma HighPart(hi: nat, lo: nat, p: nat, q: nat)
    requires p * q == BASE && p > 0 && q > 0 && lo < q && hi * q + lo < BASE
    ensures p * (hi * q + lo) == hi * BASE + p * lo
    ensures 0 <= p * lo <= BASE - p
    ensures hi < p
  {
    assert p * (hi * q + lo) == hi * (p * q) + p * lo;
    MulMonotone(lo, q - 1, p);
    assert p * (q - 1) == p * q - p;
    MulCancel(hi, p, q);
  }

  /** A shift is a number of whole bigits and a shift within one. */
  lemma SplitShift(m: nat, e: nat, shiftAmount: nat)
    ensures Scaled(m * Pow(2, shiftAmount % BIGIT_SIZE), e + shiftAmount / BIGIT_SIZE)
         == Scaled(m, e) * Pow(2, shiftAmount)
  {
    hide Pow, Weight, Scaled;
    var whole, rest := shiftAmount / BIGIT_SIZE, shiftAmount % BIGIT_SIZE;
    WeightIsPowerOfTwo(whole);
    PowAdd(2, 28 * whole, rest);
    WeightAdd(e, whole);
    Regroup(m, Pow(2, rest), Weight(e), Weight(whole));
    ScaledIsProduct(m, e);
    ScaledIsProduct(m * Pow(2, rest), e + whole);
  }

  lemma SquaredValue(m: nat, e: nat)
    ensures Scaled(m * m, 2 * e) == Scaled(m, e) * Scaled(m, e)
  {
    WeightAdd(e, e);
    Regroup(m, m, Weight(e), Weight(e));
    ScaledIsProduct(m, e);
    ScaledIsProduct(m * m, 2 * e);
  }

  lemma EstimateBounds(t: nat, d: nat, estimate: nat, w: nat, v: nat, o: nat)
    requires w > 0 && estimate == t / (d + 1)
    requires t * w <= v < (t + 1) * w && d * w <= o < (d + 1) * w
    ensures estimate * o <= v
    ensures d * (estimate + 1) > t ==> v - estimate * o < o
  {
    MulMonotone(o, (d + 1) * w, estimate);
    MulMonotone(estimate * (d + 1), t, w);
    Associate(estimate, d + 1, w);
    if d * (estimate + 1) > t {
      MulMonotone(t + 1, (estimate + 1) * d, w);
      Associate(estimate + 1, d, w);
      MulMonotone(d * w, o, estimate + 1);
      assert (estimate + 1) * o == estimate * o + o;
    }
  }

  lemma QuotientFits(v: nat, o: nat, result: nat, rest: nat)
    requires v == result * o + rest && v < 0x1_0000 * o
    ensures result < 0x1_0000
  {
    MulCancel(result, 0x1_0000, o);
  }

  lemma EstimateFits(v: nat, o: nat, result: nat, estimate: nat, rest: nat)
    requires v == result * o + rest && v < 0x1_0000 * o && estimate * o <= rest
    ensures v == (result + estimate) * o + (rest - estimate * o)
    ensures result + estimate < 0x1_0000
  {
    assert (result + estimate) * o == result * o + estimate * o;
    QuotientFits(v, o, result + estimate, rest - estimate * o);
  }

  /** Dividing the top digit when the divisor has no other: the digits below are all remainder. */
  lemma BigitDivision(s: nat, d: nat, q: nat, r: int, low: nat, w: nat)
    requires w > 0 && d > 0 && q == s / d && r == s - d * q && low < w
    ensures 0 <= r < d
    ensures low + s * w == q * (d * w) + (low + r * w)
    ensures 0 <= low + r * w < d * w
  {
    assert s == d * q + s % d;
    assert (q * d + r) * w == q * (d * w) + r * w;
    MulMonotone(r + 1, d, w);
    MulMonotone(0, r, w);
    assert (r + 1) * w == r * w + w;
  }

  lemma TopBounds(top: nat, v: nat, o: nat, w: nat, u: nat)
    requires top > 0 && top * w <= v < 0x1_0000 * o && 0 < o < u <= w
    ensures top < 0x1_0000 && 0 < top * o < v && top * u <= v
  {
    MulMonotone(u, w, top);
    MulStrict(o, u, top);
    MulStrict(0, o, top);
    if top >= 0x1_0000 {
      MulMonotone(0x1_0000, top, u);
    }
  }

  lemma TopIsLarge(top: int, w: int, o: int)
    requires top >= 0 && w > 0 && o < (top + 1) * w && BASE * w < 16 * o
    ensures top >= BASE / 16
  {
    if top + 1 <= BASE / 16 {
      MulMonotone(top + 1, BASE / 16, w);
      assert false;
    }
  }

  lemma LeavesOne(v: int, o: int, top: int, u: int)
    requires top > 0 && u > 0 && o <= (BASE - 1) * u && top * (BASE * u) <= v
    ensures v - top * o >= u
  {
    MulMonotone(o, (BASE - 1) * u, top);
    assert top * (BASE * u) == top * ((BASE - 1) * u) + top * u;
    MulMonotone(1, top, u);
  }

  lemma TakeTop(v: nat, o: nat, w: nat)
    requires 0 < o < w <= v
    ensures 0 < v / w && 0 < (v / w) * o < (v / w) * w <= v
  {
    MulStrict(0, o, v / w);
    MulStrict(o, w, v / w);
  }

  /** What the first loop of DivideModuloIntBignum leaves of v, where w is the first weight above
      the divisor o: as long as v reaches it, o is taken away as often as the top bigit says. */
  ghost function LeftOver(v: nat, o: nat, w: nat): nat
    requires 0 < o < w
    decreases v
  {
    if v < w then v else
    TakeTop(v, o, w);
    LeftOver(v - (v / w) * o, o, w)
  }

  lemma LeftOverStep(v: nat, o: nat, w: nat, top: nat, rest: nat)
    requires 0 < o < w <= v && top == v / w && rest == v - top * o
    ensures LeftOver(v, o, w) == LeftOver(rest, o, w)
  {
  }

  lemma LeftOverEnds(v: nat, o: nat, w: nat)
    requires 0 < o < w && v < w
    ensures LeftOver(v, o, w) == v
  {
  }

  ghost predicate KeepsUnit(o: nat, u: nat) {
    o <= (BASE - 1) * u
  }

  lemma TopKeeps(d: Bigit, o: nat, u: nat)
    requires o < (d + 1) * u
    ensures d < BASE - 1 || o == d * u ==> KeepsUnit(o, u)
  {
    if d < BASE - 1 {
      MulMonotone(d + 1, BASE - 1, u);
    } else {
      assert d == BASE - 1;
    }
  }

  lemma {:induction false} LeavesEnough(v: nat, o: nat, u: nat)
    requires 0 < u <= v && 0 < o < BASE * u && KeepsUnit(o, u)
    ensures LeftOver(v, o, BASE * u) >= u
    decreases v
  {
    var w := BASE * u;
    if v >= w {
      TakeTop(v, o, w);
      LeavesOne(v, o, v / w, u);
      LeavesEnough(v - (v / w) * o, o, u);
    }
  }

  /** The lengths agree after the first loop (bignum.cc:515) for every dividend exactly when the
      divisor is at most BASE - 1 times its top bigit's weight u. */
  lemma LengthsAgree(o: nat, u: nat)
    requires 0 < u <= o < BASE * u
    ensures (forall v: nat :: u <= v < 0x1_0000 * o ==> LeftOver(v, o, BASE * u) >= u) <==> KeepsUnit(o, u)
  {
    if KeepsUnit(o, u) {
      forall v: nat | u <= v < 0x1_0000 * o ensures LeftOver(v, o, BASE * u) >= u {
        LeavesEnough(v, o, u);
      }
    } else {
      var v := BASE * u;
      DivIs(v, v, 1, 0);
      LeftOverStep(v, o, v, 1, v - o);
      LeftOverEnds(v - o, o, v);
    }
  }

  /** They differ for the divisor 2^56 - 1: of 2^56 it leaves the number 1, one bigit and not two. */
  lemma LengthsDiffer()
    ensures var v, o := 0x100_0000_0000_0000, 0xff_ffff_ffff_ffff;
            && Weight(1) <= o < Weight(2) == v
            && !KeepsUnit(o, Weight(1))
            && LeftOver(v, o, Weight(2)) == 1 < Weight(1)
  {
    var v, o := 0x100_0000_0000_0000, 0xff_ffff_ffff_ffff;
    assert Weight(1) == BASE * Weight(0);
    assert Weight(2) == v;
    assert LeftOver(v, o, v) == LeftOver(1, o, v);
  }

  lemma SmallerDividend(v: nat, o: nat, result: nat, rest: nat)
    requires v == result * o + rest && v < 0x1_0000 * o
    ensures rest < 0x1_0000 * o
  {
    MulMonotone(0, result, o);
  }

  /** What is carried from one column of a square to the next stays below this. */
  const ACCUMULATOR_LIMIT: int := 0x10_0000_0000

  const FIVE_27: int := 0x6765c793fa10079d
  const FIVE_13: int := 1220703125
  const FIVE_1_TO_12: seq<nat> :=
    [5, 25, 125, 625, 3125, 15625, 78125, 390625, 1953125, 9765625, 48828125, 244140625]

  lemma SmallPowersOfFive(k: nat)
    requires 1 <= k <= 13
    ensures Pow(5, k) == if k == 13 then FIVE_13 else FIVE_1_TO_12[k - 1]
  {
    if k > 1 {
      SmallPowersOfFive(k - 1);
    } else {
      assert Pow(5, 1) == 5 * Pow(5, 0);
    }
  }

  lemma TwentySevenFives()
    ensures Pow(5, 27) == FIVE_27
  {
    SmallPowersOfFive(13);
    SmallPowersOfFive(1);
    PowAdd(5, 13, 13);
    PowAdd(5, 26, 1);
  }

  /** One of the steps that together multiply by 5^power. */
  lemma FiveStep(x: nat, done: nat, k: nat, factor: nat)
    requires factor == Pow(5, k)
    ensures TimesFives(x, done) * factor == TimesFives(x, done + k)
  {
    PowAdd(5, done, k);
    ProductOfFives(x, done);
    ProductOfFives(x, done + k);
    Associate(x, Pow(5, done), factor);
  }

  lemma FivesFit(m: nat, power: nat, limit: nat)
    requires m * Pow(5, power) < limit
    ensures forall k: nat :: k <= power ==> TimesFives(m, k) < limit
  {
    forall k: nat | k <= power
      ensures TimesFives(m, k) < limit
    {
      ProductOfFives(m, k);
      PowMonotone(5, k, power);
      MulMonotone(Pow(5, k), Pow(5, power), m);
    }
  }

  /** x * 5^k, one factor at a time. */
  ghost function TimesFives(x: nat, k: nat): nat {
    if k == 0 then x else 5 * TimesFives(x, k - 1)
  }

  lemma {:induction false} ProductOfFives(x: nat, k: nat)
    ensures TimesFives(x, k) == x * Pow(5, k)
  {
    if k > 0 {
      ProductOfFives(x, k - 1);
    }
  }

  lemma PowerOfTenParts(x: nat, k: nat)
    ensures TimesFives(x, k) * Pow(2, k) == x * Pow(10, k)
  {
    ProductOfFives(x, k);
    PowProduct(5, 2, k);
    Associate(x, Pow(5, k), Pow(2, k));
  }

  lemma NoCarryLeft(sum: nat, carry: nat, w: nat)
    requires sum + carry * w < w
    ensures carry == 0
  {
    if carry > 0 {
      MulMonotone(1, carry, w);
    }
  }

  lemma RoomBelow(m: nat, n: nat, e: nat)
    requires m < Weight(n)
    ensures Scaled(m, e) + Weight(e) <= Weight(n + e)
  {
    var w := Weight(e);
    ScaledIsProduct(m, e);
    WeightAdd(n, e);
    MulMonotone(m + 1, Weight(n), w);
    assert (m + 1) * w == m * w + w;
  }

  /** A product below 2^(28*128) leaves no carry above the last bigit. */
  lemma RoomForCarry(m: nat, rest: nat, used: nat, product: int, capacity: nat)
    requires rest > 0 && used <= capacity && m + rest * Weight(used) == product < Weight(capacity)
    ensures used < capacity
  {
    if used == capacity {
      MulMonotone(1, rest, Weight(used));
    }
  }

  lemma ShiftedValue(m: nat, d: nat, e: nat)
    ensures Scaled(m * Weight(d), e) == Scaled(m, d + e)
  {
    ScaledIsProduct(m * Weight(d), e);
    ScaledIsProduct(m, d + e);
    WeightAdd(d, e);
  }

  lemma ScaledDifference(m: nat, factor: nat, o: nat, e: nat)
    requires factor * Scaled(o, e) <= Scaled(m, e)
    ensures 0 <= factor * o <= m
    ensures Scaled(m - factor * o, e) == Scaled(m, e) - factor * Scaled(o, e)
  {
    var w := Weight(e);
    ScaledIsProduct(o, e);
    ScaledIsProduct(m, e);
    assert (factor * o) * w == factor * (o * w);
    MulCancel(factor * o, m, w);
    MulMonotone(0, factor, o);
    ScaledIsProduct(m - factor * o, e);
  }

  lemma ScaledProduct(m: nat, factor: nat, e: nat)
    ensures Scaled(m * factor, e) == Scaled(m, e) * factor
  {
    ScaledIsProduct(m, e);
    ScaledIsProduct(m * factor, e);
    assert (m * factor) * Weight(e) == (m * Weight(e)) * factor;
  }

  /** A bigit times a factor, plus a carry below the factor: the next carry is below it again. */
  lemma ProductBound(factor: nat, bigit: Bigit, carry: nat)
    requires carry < factor
    ensures 0 <= factor * bigit + carry < factor * BASE
    ensures (factor * bigit + carry) / BASE < factor
    ensures bigit != 0 ==> (factor * bigit + carry) % BASE != 0 || (factor * bigit + carry) / BASE != 0
  {
    MulMonotone(bigit, BASE - 1, factor);
    if bigit != 0 {
      MulMonotone(1, bigit, factor);
    }
  }

  /** The carry that MultiplyByUInt64 puts together from the two 32-bit halves is the carry of
      the whole product, and stays below the factor. */
  lemma HalvesOfProduct(factor: nat, bigit: Bigit, carry: nat) returns (total: nat)
    requires factor < DOUBLE_CHUNK && carry < factor
    ensures total == factor * bigit + carry
    ensures var low, high := factor % CHUNK, factor / CHUNK;
            var tmp := carry % BASE + low * bigit;
            && 0 <= tmp < DOUBLE_CHUNK && 0 <= (high * bigit) * 16 < DOUBLE_CHUNK
            && total % BASE == tmp % BASE
            && total / BASE == carry / BASE + tmp / BASE + (high * bigit) * 16
    ensures total / BASE < factor
    ensures bigit != 0 ==> total % BASE != 0 || total / BASE != 0
  {
    var low, high := factor % CHUNK, factor / CHUNK;
    ProductBound(factor, bigit, carry);
    total := factor * bigit + carry;
    MulMonotone(bigit, BASE - 1, low);
    MulMonotone(0, bigit, low);
    MulMonotone(bigit, BASE - 1, high);
    MulMonotone(0, bigit, high);
    SplitProduct(low, high, bigit);
    JoinHalves(factor * bigit, low * bigit, high * bigit, carry);
  }

  lemma SplitProduct(low: int, high: int, bigit: int)
    ensures (low + CHUNK * high) * bigit == low * bigit + CHUNK * (high * bigit)
  {
  }

  lemma JoinHalves(product: int, lowProduct: int, highProduct: int, carry: int)
    requires product == lowProduct + CHUNK * highProduct
    ensures (product + carry) % BASE == (carry % BASE + lowProduct) % BASE
    ensures (product + carry) / BASE == carry / BASE + (carry % BASE + lowProduct) / BASE + highProduct * 16
  {
    var tmp, q := carry % BASE + lowProduct, carry / BASE + highProduct * 16;
    assert product + carry == tmp + BASE * q;
  }
}
