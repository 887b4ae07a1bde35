/** The probe functions of AtomicHashArray: which cells a search that uses all its probes has seen. */
module Probing {
  import opened Arithmetic

  datatype Probe = Linear | Quadratic
  {
    /** The next cell, after numProbes probes; an overflow is taken back once instead of by a modulus. */
    function Next(idx: nat, numProbes: nat, capacity: nat): nat {
      var next := idx + if Linear? then 1 else numProbes;
      if next < capacity then next else next - capacity
    }

    /** The cell of probe n, where the key's anchor is probe 0. */
    function At(anchor: nat, n: nat, capacity: nat): nat {
      if n == 0 then anchor else Next(At(anchor, n - 1, capacity), n, capacity)
    }

    /** Do the probes of a search reach every cell? */
    ghost predicate CoversFrom(anchor: nat, capacity: nat) {
      forall c: nat | c < capacity :: Hits(anchor, capacity, capacity, c)
    }

    /** Is cell c among the first n probes? */
    ghost predicate Hits(anchor: nat, capacity: nat, n: nat, c: nat) {
      exists m: nat :: m < n && At(anchor, m, capacity) == c
    }

    /** Are the first n probes all different? */
    ghost predicate WastesNone(anchor: nat, capacity: nat, n: nat) {
      forall i: nat, j: nat | i < j < n :: At(anchor, i, capacity) != At(anchor, j, capacity)
    }

    /** How far probe n is from the anchor before wrapping. */
    function Distance(n: nat): nat {
      if Linear? then n else Triangle(n)
    }

    lemma {:induction false} AtIsModular(anchor: nat, n: nat, capacity: nat)
      requires anchor < capacity && n <= capacity
      ensures At(anchor, n, capacity) == (anchor + Distance(n)) % capacity
    {
      if n == 0 {
        DivIs(anchor, capacity, 0, anchor);
      } else {
        AtIsModular(anchor, n - 1, capacity);
        var step := if Linear? then 1 else n;
        OneWrap(anchor + Distance(n - 1), step, capacity);
        assert anchor + Distance(n) == anchor + Distance(n - 1) + step;
      }
    }
  }

  function Triangle(n: nat): nat {
    if n == 0 then 0 else Triangle(n - 1) + n
  }

  lemma OneWrap(x: nat, step: nat, capacity: nat)
    requires 0 < capacity && step <= capacity
    ensures var next := x % capacity + step;
            (x + step) % capacity == if next < capacity then next else next - capacity
  {
    var q, next := x / capacity, x % capacity + step;
    if next < capacity {
      DivIs(x + step, capacity, q, next);
    } else {
      assert (q + 1) * capacity == q * capacity + capacity;
      DivIs(x + step, capacity, q + 1, next - capacity);
    }
  }

  /** The default probe sees every cell. */
  lemma LinearCovers(anchor: nat, capacity: nat)
    requires anchor < capacity
    ensures Linear.CoversFrom(anchor, capacity)
  {
    forall c: nat | c < capacity ensures Linear.Hits(anchor, capacity, capacity, c) {
      var n := if c >= anchor then c - anchor else capacity + c - anchor;
      Linear.AtIsModular(anchor, n, capacity);
      if c >= anchor {
        DivIs(anchor + n, capacity, 0, c);
      } else {
        DivIs(anchor + n, capacity, 1, c);
      }
      assert Linear.At(anchor, n, capacity) == c;
    }
  }

  // ----- When the quadratic probe does -----

  ghost predicate IsPowerOfTwo(x: nat) {
    exists e: nat :: x == Pow(2, e)
  }

  lemma {:induction false} TriangleIsHalf(n: nat)
    ensures 2 * Triangle(n) == n * (n + 1)
  {
    if n > 0 {
      TriangleIsHalf(n - 1);
    }
  }

  /** Two triangular numbers differ by half of this product. */
  lemma TrianglesDiffer(m: nat, n: nat)
    requires m < n
    ensures 2 * (Triangle(n) - Triangle(m)) == (n - m) * (n + m + 1)
  {
    TriangleIsHalf(m);
    TriangleIsHalf(n);
  }

  lemma {:induction false} OddFactor(x: nat, y: nat, k: nat, q: nat)
    requires x % 2 == 1 && y > 0 && x * y == q * Pow(2, k)
    ensures y >= Pow(2, k)
  {
    if k > 0 {
      HalfOf(k);
      var h := Pow(2, k - 1);
      Exchange(q, h);
      EvenFactor(x, y);
      Exchange(x, y / 2);
      OddFactor(x, y / 2, k - 1, q);
    }
  }

  lemma Exchange(a: nat, b: nat)
    ensures a * (2 * b) == 2 * (a * b)
  {
  }

  lemma EvenFactor(x: nat, y: nat)
    requires x % 2 == 1 && x * y % 2 == 0
    ensures y == 2 * (y / 2)
  {
    if y % 2 == 1 {
      OddProduct(x / 2, y / 2);
      assert false;
    }
  }

  lemma OddProduct(h: nat, g: nat)
    ensures (2 * h + 1) * (2 * g + 1) % 2 == 1
  {
    assert (2 * h + 1) * (2 * g + 1) == 2 * (2 * (h * g) + h + g) + 1;
  }

  lemma SameRemainder(x: nat, y: nat, d: nat) returns (q: nat)
    requires d > 0 && x <= y && x % d == y % d
    ensures y - x == q * d
  {
    var a, b := x / d, y / d;
    assert (b - a) * d == b * d - a * d;
    if b < a {
      MulMonotone(b - a, -1, d);
      assert y - x == 0;
      q := 0;
    } else {
      q := b - a;
    }
  }

  /** With a power of two no cell is probed twice. */
  lemma PowersDoNotRepeat(anchor: nat, m: nat, n: nat, e: nat)
    requires m < n < Pow(2, e)
    ensures (anchor + Triangle(m)) % Pow(2, e) != (anchor + Triangle(n)) % Pow(2, e)
  {
    hide Pow, Triangle;
    if (anchor + Triangle(m)) % Pow(2, e) == (anchor + Triangle(n)) % Pow(2, e) {
      TriangleGrows(m, n);
      var q := SameRemainder(anchor + Triangle(m), anchor + Triangle(n), Pow(2, e));
      TrianglesDiffer(m, n);
      HalfOf(e + 1);
      Exchange(q, Pow(2, e));
      TooSmall(n - m, n + m + 1, e + 1, q);
      assert false;
    }
  }

  /** One of the factors is odd, so the other would have to be the whole power. */
  lemma TooSmall(x: nat, y: nat, k: nat, q: nat)
    requires 0 < x < Pow(2, k) && 0 < y < Pow(2, k) && (x + y) % 2 == 1
    ensures x * y != q * Pow(2, k)
  {
    hide Pow;
    if x * y == q * Pow(2, k) {
      if x % 2 == 1 {
        OddFactor(x, y, k, q);
      } else {
        Commute(x, y);
        OddFactor(y, x, k, q);
      }
      assert false;
    }
  }

  lemma Commute(x: nat, y: nat)
    ensures x * y == y * x
  {
  }

  lemma {:induction false} TriangleGrows(m: nat, n: nat)
    requires m <= n
    ensures Triangle(m) <= Triangle(n)
  {
    if m < n {
      TriangleGrows(m, n - 1);
    }
  }

  lemma {:induction false} OddPart(x: nat) returns (a: nat, q: nat)
    requires x > 0
    ensures x == Pow(2, a) * q && q % 2 == 1 && (q == 1 ==> IsPowerOfTwo(x))
  {
    if x % 2 == 1 {
      a, q := 0, x;
    } else {
      a, q := OddPart(x / 2);
      Associate(2, Pow(2, a), q);
      a := a + 1;
    }
  }

  /** With any other capacity two probes meet. */
  lemma OthersRepeat(anchor: nat, capacity: nat) returns (m: nat, n: nat)
    requires capacity > 0 && !IsPowerOfTwo(capacity)
    ensures m < n < capacity && (anchor + Triangle(m)) % capacity == (anchor + Triangle(n)) % capacity
  {
    hide Pow, Triangle;
    var a, q := OddPart(capacity);
    m, n := Meeting(Pow(2, a), q / 2, capacity);
    TrianglesDiffer(m, n);
    OneWrap(anchor + Triangle(m), capacity, capacity);
  }

  /** The even and the odd factor of twice the capacity say which probes meet. */
  lemma Meeting(h: nat, g: nat, capacity: nat) returns (m: nat, n: nat)
    requires h >= 1 && g >= 1 && capacity == h * (2 * g + 1)
    ensures m < n < capacity && (n - m) * (n + m + 1) == 2 * capacity
  {
    n := g + h;
    MulMonotone(1, h, g);
    assert h * (2 * g + 1) == 2 * (h * g) + h;
    if g < h {
      m := h - g - 1;
      assert (2 * g + 1) * (2 * h) == 2 * (h * (2 * g + 1));
    } else {
      m := g - h;
      assert (2 * h) * (2 * g + 1) == 2 * (h * (2 * g + 1));
    }
  }

  // ----- Counting the cells that were seen -----

  /** The cells of the first n probes. */
  ghost function Seen(probe: Probe, anchor: nat, capacity: nat, n: nat): set<nat> {
    if n == 0 then {} else Seen(probe, anchor, capacity, n - 1) + {probe.At(anchor, n - 1, capacity)}
  }

  lemma {:induction false} SeenIs(probe: Probe, anchor: nat, capacity: nat, n: nat, c: nat)
    ensures c in Seen(probe, anchor, capacity, n) <==> probe.Hits(anchor, capacity, n, c)
  {
    if n > 0 {
      SeenIs(probe, anchor, capacity, n - 1, c);
      if probe.Hits(anchor, capacity, n, c) {
        var m: nat :| m < n && probe.At(anchor, m, capacity) == c;
        assert m < n - 1 ==> probe.Hits(anchor, capacity, n - 1, c);
      }
    }
  }

  /** As many as there were probes exactly when none repeats another. */
  lemma {:induction false} SeenCount(probe: Probe, anchor: nat, capacity: nat, n: nat)
    ensures |Seen(probe, anchor, capacity, n)| <= n
    ensures |Seen(probe, anchor, capacity, n)| == n <==> probe.WastesNone(anchor, capacity, n)
  {
    if n > 0 {
      var c := probe.At(anchor, n - 1, capacity);
      SeenCount(probe, anchor, capacity, n - 1);
      SeenIs(probe, anchor, capacity, n - 1, c);
      if probe.WastesNone(anchor, capacity, n) {
        assert probe.WastesNone(anchor, capacity, n - 1);
        assert !probe.Hits(anchor, capacity, n - 1, c);
      } else if probe.WastesNone(anchor, capacity, n - 1) {
        var i: nat, j: nat :| i < j < n && probe.At(anchor, i, capacity) == probe.At(anchor, j, capacity);
        assert j == n - 1;
        assert probe.Hits(anchor, capacity, n - 1, c);
      }
    }
  }

  ghost function Cells(capacity: nat): set<nat> {
    if capacity == 0 then {} else Cells(capacity - 1) + {capacity - 1}
  }

  lemma {:induction false} CellCount(capacity: nat)
    ensures |Cells(capacity)| == capacity
    ensures forall c: nat :: c in Cells(capacity) <==> c < capacity
  {
    if capacity > 0 {
      CellCount(capacity - 1);
    }
  }

  lemma Subset(s: set<nat>, t: set<nat>)
    requires s <= t
    ensures s == t <==> |s| == |t|
  {
    assert t == s + (t - s);
  }

  /** Every cell is seen exactly when no probe is wasted. */
  lemma CoversIsInjective(probe: Probe, anchor: nat, capacity: nat)
    requires anchor < capacity
    ensures probe.CoversFrom(anchor, capacity) <==> probe.WastesNone(anchor, capacity, capacity)
  {
    hide Probe.WastesNone;
    var seen, all := Seen(probe, anchor, capacity, capacity), Cells(capacity);
    CellCount(capacity);
    forall c | c in seen ensures c < capacity {
      SeenIs(probe, anchor, capacity, capacity, c);
      var m: nat :| m < capacity && probe.At(anchor, m, capacity) == c;
      probe.AtIsModular(anchor, m, capacity);
    }
    forall c: nat ensures c in seen <==> probe.Hits(anchor, capacity, capacity, c) {
      SeenIs(probe, anchor, capacity, capacity, c);
    }
    Subset(seen, all);
    SeenCount(probe, anchor, capacity, capacity);
  }

  /** The quadratic probe sees every cell exactly when their number is a power of two. */
  lemma QuadraticCovers(anchor: nat, capacity: nat)
    requires anchor < capacity
    ensures Quadratic.CoversFrom(anchor, capacity) <==> IsPowerOfTwo(capacity)
  {
    hide Pow, Probe.CoversFrom, Probe.At, Triangle;
    CoversIsInjective(Quadratic, anchor, capacity);
    if IsPowerOfTwo(capacity) {
      var e: nat :| capacity == Pow(2, e);
      forall i: nat, j: nat | i < j < capacity
        ensures Quadratic.At(anchor, i, capacity) != Quadratic.At(anchor, j, capacity)
      {
        PowersDoNotRepeat(anchor, i, j, e);
        Quadratic.AtIsModular(anchor, i, capacity);
        Quadratic.AtIsModular(anchor, j, capacity);
      }
    } else {
      var m, n := OthersRepeat(anchor, capacity);
      Quadratic.AtIsModular(anchor, m, capacity);
      Quadratic.AtIsModular(anchor, n, capacity);
    }
  }
}
