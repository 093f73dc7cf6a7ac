/** Quadratic probing with triangular numbers, as in MMgc/GCHashtable-inlines.h: the i-th slot
    probed for a key with hash h is (h + (i*i + i)/2) modulo the table size, a power of two. */
module Probing {

  function Pow2(k: nat): (r: nat)
    ensures 0 < r
  {
    if k == 0 then 1 else 2 * Pow2(k - 1)
  }

  ghost predicate IsPow2(n: nat) {
    exists k :: n == Pow2(k)
  }

  function Triangle(n: nat): nat {
    if n == 0 then 0 else Triangle(n - 1) + n
  }

  function Slot(h: nat, n: nat, size: nat): nat
    requires 0 < size
  {
    (h + Triangle(n)) % size
  }

  /** The probe loop adds 1, 2, 3, ... to the slot. */
  lemma NextSlot(h: nat, n: nat, size: nat)
    requires 0 < size
    ensures Slot(h, n + 1, size) == (Slot(h, n, size) + (n + 1)) % size
  {
    hide Slot, Triangle, IsResidue;
    var a, b := h + Triangle(n), h + Triangle(n + 1);
    assert IsResidue(Slot(h, n, size), a, size) && IsResidue(Slot(h, n + 1, size), b, size) by {
      SlotOfSum(h, n, size, a);
      SlotOfSum(h, n + 1, size, b);
    }
    NextTriangle(n);
    NextResidue(a, n + 1, b, Slot(h, n, size), Slot(h, n + 1, size), size);
  }

  predicate IsResidue(r: nat, a: nat, m: nat)
    requires 0 < m
  {
    r == a % m
  }

  lemma SlotOfSum(h: nat, n: nat, size: nat, sum: nat)
    requires 0 < size && sum == h + Triangle(n)
    ensures IsResidue(Slot(h, n, size), sum, size)
  {
  }

  lemma NextResidue(a: nat, d: nat, b: nat, r: nat, s: nat, m: nat)
    requires 0 < m && b == a + d && IsResidue(r, a, m) && IsResidue(s, b, m)
    ensures s == (r + d) % m
  {
    ModPlus(a, d, m);
  }

  lemma NextTriangle(n: nat)
    ensures Triangle(n + 1) == Triangle(n) + (n + 1)
  {
  }

  /** Quotient and remainder are unique. */
  lemma ModUnique(x: int, m: nat, q: int, r: nat)
    requires r < m && x == q * m + r
    ensures x % m == r
  {
    var d := x / m - q;
    assert d * m == r - x % m by {
      assert x == (x / m) * m + x % m;
      assert (x / m - q) * m == (x / m) * m - q * m;
    }
    MulBound(d, m);
  }

  lemma MulBound(d: int, m: int)
    requires 0 <= m
    ensures d >= 1 ==> d * m >= m
    ensures d <= -1 ==> d * m <= -m
  {
    if d >= 1 {
      assert d * m == (d - 1) * m + m && (d - 1) * m >= 0;
    } else if d <= -1 {
      assert d * m == -m - (-1 - d) * m && (-1 - d) * m >= 0;
    }
  }

  lemma ModMultiple(x: nat, q: nat, m: nat)
    requires 0 < m
    ensures (x + q * m) % m == x % m
  {
    var p := x / m;
    assert x == p * m + x % m;
    assert x + q * m == (p + q) * m + x % m;
    ModUnique(x + q * m, m, p + q, x % m);
  }

  lemma ModPlus(a: nat, b: nat, m: nat)
    requires 0 < m
    ensures (a + b) % m == (a % m + b) % m
  {
    var q := a / m;
    assert a == q * m + a % m;
    ModMultiple(a % m + b, q, m);
  }

  lemma {:induction false} TriangleFormula(n: nat)
    ensures 2 * Triangle(n) == n * (n + 1)
  {
    if n > 0 { TriangleFormula(n - 1); }
  }

  lemma {:induction false} TriangleMonotone(a: nat, b: nat)
    requires a <= b
    ensures Triangle(a) <= Triangle(b)
  {
    if a < b { TriangleMonotone(a, b - 1); }
  }

  lemma OddTimesOdd(x: nat, y: nat)
    requires x % 2 == 1 && y % 2 == 1
    ensures (x * y) % 2 == 1
  {
    var a, b := x / 2, y / 2;
    assert x * y == (2 * a + 1) * (2 * b + 1) == 2 * (2 * a * b + a + b) + 1;
  }

  /** An odd factor does not contribute to divisibility by a power of two. */
  lemma {:induction false} OddFactor(k: nat, x: nat, y: nat, q: nat) returns (r: nat)
    requires y % 2 == 1 && x * y == q * Pow2(k)
    ensures x == r * Pow2(k)
  {
    if k == 0 {
      r := x;
    } else {
      var half := q * Pow2(k - 1);
      assert x * y == 2 * half by { assert q * (2 * Pow2(k - 1)) == 2 * (q * Pow2(k - 1)); }
      if x % 2 == 1 { OddTimesOdd(x, y); }
      var x' := x / 2;
      assert x == 2 * x';
      assert 2 * (x' * y) == 2 * half;
      r := OddFactor(k - 1, x', y, q);
      assert 2 * (r * Pow2(k - 1)) == r * (2 * Pow2(k - 1));
    }
  }

  lemma SameResidue(a: nat, b: nat, m: nat) returns (q: nat)
    requires 0 < m && a <= b && a % m == b % m
    ensures b - a == q * m
  {
    q := b / m - a / m;
    assert a == (a / m) * m + a % m && b == (b / m) * m + b % m;
    assert b - a == (b / m) * m - (a / m) * m == q * m;
  }

  lemma NoMultipleBetween(x: nat, r: nat, m: nat)
    requires x == r * m && 0 < x
    ensures m <= x
  {
    if r >= 1 {
      assert (r - 1) * m >= 0;
      assert r * m == (r - 1) * m + m;
    }
  }

  lemma DifferenceOfProducts(a: int, b: int)
    ensures (b - a) * (a + b + 1) == b * (b + 1) - a * (a + 1)
  {
    assert (b - a) * (a + b + 1) == b * (a + b + 1) - a * (a + b + 1);
    assert b * (a + b + 1) == b * a + b * (b + 1);
    assert a * (a + b + 1) == a * b + a * (a + 1);
  }

  lemma ProductOfSteps(a: nat, b: nat, q: nat, size: nat)
    requires a < b && Triangle(b) - Triangle(a) == q * size
    ensures (b - a) * (a + b + 1) == q * (2 * size)
  {
    hide Triangle;
    TriangleFormula(a);
    TriangleFormula(b);
    DifferenceOfProducts(a, b);
    assert q * (2 * size) == 2 * (q * size);
  }

  /** Within the first 'size' probes no slot is visited twice. */
  lemma SlotsDistinct(h: nat, a: nat, b: nat, k: nat)
    requires a < b < Pow2(k)
    ensures Slot(h, a, Pow2(k)) != Slot(h, b, Pow2(k))
  {
    hide Slot, Triangle, Pow2;
    if Slot(h, a, Pow2(k)) == Slot(h, b, Pow2(k)) {
      var q := SameSlot(h, a, b, Pow2(k));
      ProductOfSteps(a, b, q, Pow2(k));
      DoublePow2(k);
      OddSum(a, b);
      EvenFactor(b - a, a + b + 1, k, q);
    }
  }

  lemma SameSlot(h: nat, a: nat, b: nat, size: nat) returns (q: nat)
    requires 0 < size && a < b && Slot(h, a, size) == Slot(h, b, size)
    ensures Triangle(b) - Triangle(a) == q * size
  {
    hide Triangle;
    TriangleMonotone(a, b);
    q := SameResidue(h + Triangle(a), h + Triangle(b), size);
  }

  lemma OddSum(a: nat, b: nat)
    requires a < b
    ensures ((b - a) + (a + b + 1)) % 2 == 1
  {
    assert (b - a) + (a + b + 1) == 2 * b + 1;
  }

  /** Of the factors b - a and a + b + 1 one is odd, so the other one would have to be too large. */
  lemma EvenFactor(x: nat, y: nat, k: nat, q: nat)
    requires 0 < x < y < 2 * Pow2(k) && (x + y) % 2 == 1
    ensures x * y != q * Pow2(k + 1)
  {
    hide Pow2;
    DoublePow2(k);
    if y % 2 == 1 {
      NotTooLarge(x, y, Pow2(k + 1), k, q);
    } else {
      NotTooLarge(y, x, Pow2(k + 1), k, q);
      assert x * y == y * x;
    }
  }

  lemma NotTooLarge(even: nat, odd: nat, p: nat, k: nat, q: nat)
    requires 0 < even < p == Pow2(k + 1) && odd % 2 == 1
    ensures even * odd != q * p
  {
    hide Pow2;
    if even * odd == q * p {
      var r := OddFactor(k + 1, even, odd, q);
      NoMultipleBetween(even, r, p);
    }
  }

  lemma DoublePow2(k: nat)
    ensures Pow2(k + 1) == 2 * Pow2(k)
  {
  }

  ghost function Visited(h: nat, n: nat, size: nat): set<nat>
    requires 0 < size
  {
    if n == 0 then {} else Visited(h, n - 1, size) + {Slot(h, n - 1, size)}
  }

  ghost function Below(n: nat): set<nat> {
    if n == 0 then {} else Below(n - 1) + {n - 1}
  }

  lemma {:induction false} BelowSize(n: nat)
    ensures |Below(n)| == n && forall i: nat :: i in Below(n) <==> i < n
  {
    if n > 0 { BelowSize(n - 1); }
  }

  lemma {:induction false} VisitedSlot(h: nat, n: nat, size: nat, s: nat) returns (i: nat)
    requires 0 < size && s in Visited(h, n, size)
    ensures i < n && Slot(h, i, size) == s
  {
    if s == Slot(h, n - 1, size) {
      i := n - 1;
    } else {
      i := VisitedSlot(h, n - 1, size, s);
    }
  }

  lemma {:induction false} VisitedSize(h: nat, n: nat, k: nat)
    requires n <= Pow2(k) && 0 < Pow2(k)
    ensures |Visited(h, n, Pow2(k))| == n
  {
    if n > 0 {
      VisitedSize(h, n - 1, k);
      var s := Slot(h, n - 1, Pow2(k));
      if s in Visited(h, n - 1, Pow2(k)) {
        var i := VisitedSlot(h, n - 1, Pow2(k), s);
        SlotsDistinct(h, i, n - 1, k);
      }
    }
  }

  lemma {:induction false} VisitedBelow(h: nat, n: nat, size: nat)
    requires 0 < size
    ensures Visited(h, n, size) <= Below(size)
  {
    BelowSize(size);
    if n > 0 { VisitedBelow(h, n - 1, size); }
  }

  lemma {:induction false} SubsetOfSameSize(a: set<nat>, b: set<nat>)
    requires a <= b && |a| == |b|
    ensures a == b
  {
    if a != {} {
      var x :| x in a;
      SubsetOfSameSize(a - {x}, b - {x});
    }
  }

  /** The first 'size' probes visit every slot. */
  lemma AllSlotsVisited(h: nat, s: nat, k: nat) returns (n: nat)
    requires s < Pow2(k)
    ensures n < Pow2(k) && Slot(h, n, Pow2(k)) == s
  {
    var size := Pow2(k);
    VisitedSize(h, size, k);
    VisitedBelow(h, size, size);
    BelowSize(size);
    SubsetOfSameSize(Visited(h, size, size), Below(size));
    n := VisitedSlot(h, size, size, s);
  }
}
