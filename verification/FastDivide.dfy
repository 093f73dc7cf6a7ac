/** Division and bit indexing without division, as in MMgc/GCAlloc.cpp: the multiplier and shift that replace a
    division by the item size, and the index of an item's bits. Shifts are written as products and quotients of
    powers of two. */
module FastDivide {
  import opened Basics
  import opened Probing

  // ----- Multiplying and shifting

  lemma {:induction false} Exponential(s: nat)
    ensures s < Pow2(s)
  {
    if s > 0 { Exponential(s - 1); }
  }

  lemma QuotientBelow(p: nat, d: nat, n: nat)
    requires 1 <= d
    ensures p / d + 1 < n ==> p < n * d
    ensures n <= p / d + 1 ==> (n - 1) * d <= p
  {
    var q := p / d;
    assert p == q * d + p % d;
    if q + 1 < n { MulMonotone(q + 1, n, d); }
    if n <= q + 1 { MulMonotone(n - 1, q, d); }
  }

  lemma MulMonotone(a: int, b: int, d: nat)
    requires a <= b
    ensures a * d <= b * d
  {
  }

  /** x >> k, for p == 1 << k. */
  function ShiftRight(x: nat, p: nat): nat
    requires 1 <= p
  {
    x / p
  }

  /** A little more than 2^k / d. */
  function Multiplier(k: nat, d: nat): nat
    requires 1 <= d
  {
    ShiftedOne(Pow2(k), d)
  }

  function ShiftedOne(p: nat, d: nat): nat
    requires 1 <= d
  {
    p / d + 1
  }

  /** The loop of ComputeMultiplyShift finds the last multiplier that fits into 13 bits. */
  method ComputeMultiplyShift(d: nat) returns (muli: nat, shft: nat)
    requires 1 <= d
    ensures muli == Multiplier(shft, d) && muli < 8192 <= Multiplier(shft + 1, d)
  {
    hide Multiplier;
    var s, n, m := 0, 0, 0;
    FirstMultiplier(d);
    ghost var bound := Bound(d);
    while n < 8192
      invariant s == 0 ==> n == 0
      invariant s == 1 ==> n < 8192
      invariant s >= 1 ==> n == Multiplier(s, d)
      invariant s >= 2 ==> m == Multiplier(s - 1, d) && m < 8192
      invariant s <= bound
      decreases bound - s
    {
      if s >= 1 { MultiplierGrows(s, d); }
      m := n;
      n := Multiplier(s + 1, d);
      s := s + 1;
    }
    shft := s - 1;
    muli := m;
  }

  ghost function Bound(d: nat): (r: nat)
    ensures 1 <= r
  {
    8192 * d + 1
  }

  lemma FirstMultiplier(d: nat)
    requires 1 <= d
    ensures Multiplier(1, d) < 8192
  {
    assert Pow2(1) == 2 * Pow2(0) == 2;
    QuotientBelow(2, d, 4);
    MulMonotone(1, d, 3);
  }

  lemma MultiplierGrows(s: nat, d: nat)
    requires 1 <= d && Multiplier(s, d) < 8192
    ensures s + 1 <= Bound(d)
  {
    hide Pow2;
    QuotientBelow(Pow2(s), d, 8192);
    Exponential(s);
  }

  /** Multiplying by the multiplier and shifting is division by the divisor, for every offset in a block. */
  lemma DivisionIsExact(d: nat, k: nat, x: nat)
    requires 1 <= d && x < BLOCK_SIZE && 8192 <= Multiplier(k + 1, d)
    ensures ShiftRight(x * Multiplier(k, d), Pow2(k)) == x / d
  {
    hide Pow2;
    DoublePow2(k);
    var p, m := Pow2(k), Multiplier(k, d);
    Excess(p, d);
    QuotientBelow(2 * p, d, 8192);
    ErrorIsSmall(x, d * m - p, d, p);
    Squeeze(x, m, d, p, d * m - p);
  }

  lemma Excess(p: nat, d: nat)
    requires 1 <= d
    ensures 0 < d * ShiftedOne(p, d) - p <= d
  {
    var q := p / d;
    assert p == q * d + p % d;
    assert d * (q + 1) == q * d + d;
  }

  lemma ErrorIsSmall(x: nat, e: nat, d: nat, p: nat)
    requires x <= 4095 && e <= d && 1 <= d && 8191 * d <= 2 * p
    ensures x * e < p
  {
    MulMonotone(x, 4095, e);
    assert 2 * (x * e) <= 8190 * d;
  }

  lemma Squeeze(x: nat, m: nat, d: nat, p: nat, e: nat)
    requires 1 <= d && 1 <= p && d * m == p + e && x * e < p
    ensures (x * m) / p == x / d
  {
    var q, r := x / d, x % d;
    assert x == q * d + r;
    Expand(x, m, d, p, e, q, r);
    MulMonotone(r + 1, d, p);
    Cancel(d, q * p, x * m);
    Cancel(d, x * m + 1, (q + 1) * p);
    ModUnique(x * m, p, q, x * m - q * p);
    QuotientUnique(x * m, p, q);
  }

  lemma Expand(x: nat, m: nat, d: nat, p: nat, e: nat, q: nat, r: nat)
    requires d * m == p + e && x == q * d + r
    ensures d * (x * m) == d * (q * p) + r * p + x * e
    ensures d * ((q + 1) * p) == d * (q * p) + d * p
  {
    assert d * (x * m) == x * (d * m) == x * p + x * e;
    assert x * p == q * d * p + r * p;
  }

  lemma Cancel(d: nat, a: int, b: int)
    requires 1 <= d && d * a <= d * b + (d - 1)
    ensures a <= b
  {
    if b + 1 <= a { MulMonotone(b + 1, a, d); }
  }

  lemma QuotientUnique(x: nat, p: nat, q: nat)
    requires 1 <= p && q * p <= x < (q + 1) * p
    ensures x / p == q
  {
    var r := x - q * p;
    ModUnique(x, p, q, r);
    assert x == (x / p) * p + x % p;
    assert (x / p - q) * p == 0;
    MulBound(x / p - q, p);
  }

  /** GetObjectIndex: the index of the item that an address lies in, without a division. */
  method GetObjectIndex(itemSize: nat, offset: nat) returns (index: nat)
    requires 1 <= itemSize && offset < BLOCK_SIZE
    ensures index == offset / itemSize
  {
    hide Multiplier, ShiftRight, Pow2;
    var multiple, shift := ComputeMultiplyShift(itemSize);
    index := ShiftRight(offset * multiple, Pow2(shift));
    DivisionIsExact(itemSize, shift, offset);
  }

  // ----- The index of an item's bits

  /** The number of times n can be halved. */
  method Log2(n0: nat) returns (result: nat)
    requires 1 <= n0
    ensures Pow2(result) <= n0 < Pow2(result + 1)
  {
    hide Pow2;
    result := 0;
    var n := n0;
    ZeroPower();
    while n > 1
      invariant 1 <= n && n * Pow2(result) <= n0 < (n + 1) * Pow2(result)
    {
      Halve(n, Pow2(result), n0);
      DoublePow2(result);
      result := result + 1;
      n := n / 2;
    }
    DoublePow2(result);
  }

  lemma ZeroPower()
    ensures Pow2(0) == 1
  {
  }

  lemma Halve(n: nat, p: nat, x: nat)
    requires n * p <= x < (n + 1) * p
    ensures (n / 2) * (2 * p) <= x < (n / 2 + 1) * (2 * p)
  {
    var h := n / 2;
    assert h * (2 * p) == (2 * h) * p && (h + 1) * (2 * p) == (2 * h + 2) * p;
    MulMonotone(2 * h, n, p);
    MulMonotone(n + 1, 2 * h + 2, p);
  }

  /** Where the i-th item of a block starts: items are counted from the end of the block, which has no dead space. */
  function ItemOffset(itemSize: nat, itemsPerBlock: nat, i: nat): nat
    requires i < itemsPerBlock && itemsPerBlock * itemSize <= BLOCK_SIZE
  {
    BLOCK_SIZE - itemsPerBlock * itemSize + i * itemSize
  }

  lemma ItemInBlock(itemSize: nat, itemsPerBlock: nat, i: nat)
    requires i < itemsPerBlock && itemsPerBlock * itemSize <= BLOCK_SIZE && 1 <= itemSize
    ensures ItemOffset(itemSize, itemsPerBlock, i) + itemSize <= BLOCK_SIZE
  {
    MulMonotone(i + 1, itemsPerBlock, itemSize);
  }

  /** GetBitsIndex: the low bits of the address, shifted. */
  function BitsIndex(offset: nat, bitsShift: nat): nat {
    ShiftRight(offset, Pow2(bitsShift))
  }

  /** Different items have different bits, and all of them lie within the table: what the comment in
      MMgc/GCAlloc.h leaves without a proof. */
  lemma BitsIndexIsUnique(itemSize: nat, itemsPerBlock: nat, bitsShift: nat, i: nat, j: nat)
    requires 1 <= itemSize < BLOCK_SIZE && itemsPerBlock * itemSize <= BLOCK_SIZE
    requires Pow2(bitsShift) <= itemSize < Pow2(bitsShift + 1)
    requires i < j < itemsPerBlock
    ensures BitsIndex(ItemOffset(itemSize, itemsPerBlock, i), bitsShift) <
              BitsIndex(ItemOffset(itemSize, itemsPerBlock, j), bitsShift)
    ensures BitsIndex(ItemOffset(itemSize, itemsPerBlock, j), bitsShift) < BitsIndex(BLOCK_SIZE, bitsShift)
  {
    hide Pow2;
    var p := Pow2(bitsShift);
    var a, b := ItemOffset(itemSize, itemsPerBlock, i), ItemOffset(itemSize, itemsPerBlock, j);
    assert b == a + (j - i) * itemSize;
    MulMonotone(1, j - i, itemSize);
    QuotientGrows(a, b, p);
    ItemInBlock(itemSize, itemsPerBlock, j);
    QuotientGrows(b, BLOCK_SIZE, p);
  }

  lemma QuotientGrows(a: nat, b: nat, p: nat)
    requires 1 <= p && a + p <= b
    ensures a / p < b / p
  {
    var q := a / p;
    assert a == q * p + a % p;
    assert (q + 1) * p == q * p + p <= b;
    assert b == (b / p) * p + b % p;
    if b / p <= q { MulMonotone(b / p, q, p); }
  }
}
