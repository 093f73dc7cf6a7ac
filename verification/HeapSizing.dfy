/** The loop in MMgc/GCHeap.cpp, ExpandHeapInternal, that settles how large an expansion must be when the table of
    all blocks has to fit into the new memory as well: the size depends on the table, and the table on the size. */
module HeapSizing {
  import opened Basics
  import Probing

  function RoundUp(x: nat, m: nat): (r: nat)
    requires 1 <= m
    ensures x <= r < x + m && r % m == 0
  {
    RoundUpIs(x, m);
    (x + m - 1) / m * m
  }

  lemma RoundUpIs(x: nat, m: nat)
    requires 1 <= m
    ensures x <= (x + m - 1) / m * m < x + m && (x + m - 1) / m * m % m == 0
  {
    var q := (x + m - 1) / m;
    assert x + m - 1 == q * m + (x + m - 1) % m;
    assert (q * m) % m == 0 by { Multiple(q, m); }
  }

  lemma Multiple(q: nat, m: nat)
    requires 1 <= m
    ensures (q * m) % m == 0
  {
    Probing.ModMultiple(0, q, m);
  }

  /** The pages that a table of n entries takes. */
  function NumHeapBlocksToNumBlocks(n: nat, entrySize: nat): nat {
    RoundUp(n * entrySize, BLOCK_SIZE) / BLOCK_SIZE
  }

  lemma TablePages(n: nat, entrySize: nat)
    ensures var t := NumHeapBlocksToNumBlocks(n, entrySize); (t - 1) * BLOCK_SIZE < n * entrySize <= t * BLOCK_SIZE
  {
  }

  lemma Times(a: nat, b: nat, c: nat)
    requires a <= b
    ensures a * c <= b * c && c * a <= c * b
  {
  }

  /** A longer table takes no fewer pages. */
  lemma TableMonotone(a: nat, b: nat, entrySize: nat)
    requires a <= b
    ensures NumHeapBlocksToNumBlocks(a, entrySize) <= NumHeapBlocksToNumBlocks(b, entrySize)
  {
    hide NumHeapBlocksToNumBlocks;
    TablePages(a, entrySize);
    TablePages(b, entrySize);
    Times(a, b, entrySize);
  }

  /** What a round of the loop does not exceed, given what went in. */
  lemma TableBounded(c: nat, n: nat, entries: nat, entrySize: nat)
    requires entrySize < BLOCK_SIZE && entries <= c + n && n <= 4095 * (c + 1)
    ensures NumHeapBlocksToNumBlocks(entries, entrySize) <= 4095 * (c + 1)
  {
    hide NumHeapBlocksToNumBlocks;
    TablePages(entries, entrySize);
    Times(entrySize, 4095, entries);
  }

  /** The expansion settled on. The first one has no old table to keep, and was not adjusted for a new one; any other
      either keeps the old table, or was adjusted for a new one of so many pages at most. */
  datatype Expansion = First(size: nat) | Kept(size: nat) | Adjusted(size: nat, table: nat)

  function Extra(noNextRegion: bool): (r: nat)
    ensures 1 <= r <= 2
  {
    if noNextRegion then 2 else 1
  }

  /** The first expansion takes what it needs out of the initial size, unless that is zero. */
  predicate Unadjusted(blocksLen: nat, initialSize: nat) {
    blocksLen == 0 && initialSize != 0
  }

  lemma RoundUpMonotone(a: nat, b: nat)
    requires a <= b
    ensures RoundUp(a, MIN_HEAP_INCREMENT) <= RoundUp(b, MIN_HEAP_INCREMENT)
  {
    hide RoundUp;
  }

  /** The pages of the table for all blocks there are if the expansion is adjusted for a new table of so many pages. */
  function TableFor(table: nat, askSize: nat, blocksLen: nat, noNextRegion: bool, entrySize: nat): nat {
    NumHeapBlocksToNumBlocks(
      blocksLen + RoundUp(askSize + table + Extra(noNextRegion), MIN_HEAP_INCREMENT) + Extra(noNextRegion), entrySize)
  }

  /** No smaller table would be large enough. */
  ghost predicate LeastTable(table: nat, askSize: nat, blocksLen: nat, noNextRegion: bool, entrySize: nat) {
    forall t: nat :: t < table ==> TableFor(t, askSize, blocksLen, noNextRegion, entrySize) > t
  }

  /** The first table of the loop is too small or just large enough. */
  lemma FirstTable(askSize: nat, blocksLen: nat, noNextRegion: bool, entrySize: nat)
    ensures LeastTable(NumHeapBlocksToNumBlocks(
                         blocksLen + RoundUp(askSize, MIN_HEAP_INCREMENT) + Extra(noNextRegion), entrySize),
                       askSize, blocksLen, noNextRegion, entrySize)
  {
    hide NumHeapBlocksToNumBlocks, RoundUp;
    var x := Extra(noNextRegion);
    var first := NumHeapBlocksToNumBlocks(blocksLen + RoundUp(askSize, MIN_HEAP_INCREMENT) + x, entrySize);
    forall t: nat ensures TableFor(t, askSize, blocksLen, noNextRegion, entrySize) >= first {
      RoundUpMonotone(askSize, askSize + t + x);
      TableMonotone(blocksLen + RoundUp(askSize, MIN_HEAP_INCREMENT) + x,
                    blocksLen + RoundUp(askSize + t + x, MIN_HEAP_INCREMENT) + x, entrySize);
    }
  }

  /** And so is the next, if one is. */
  lemma NextTable(table: nat, askSize: nat, blocksLen: nat, noNextRegion: bool, entrySize: nat)
    requires LeastTable(table, askSize, blocksLen, noNextRegion, entrySize)
    ensures LeastTable(NumHeapBlocksToNumBlocks(
                         blocksLen + RoundUp(askSize + table + Extra(noNextRegion), MIN_HEAP_INCREMENT)
                         + Extra(noNextRegion), entrySize),
                       askSize, blocksLen, noNextRegion, entrySize)
  {
    hide NumHeapBlocksToNumBlocks, RoundUp;
    var x := Extra(noNextRegion);
    forall t: nat | table <= t
      ensures TableFor(table, askSize, blocksLen, noNextRegion, entrySize)
              <= TableFor(t, askSize, blocksLen, noNextRegion, entrySize)
    {
      RoundUpMonotone(askSize + table + x, askSize + t + x);
      TableMonotone(blocksLen + RoundUp(askSize + table + x, MIN_HEAP_INCREMENT) + x,
                    blocksLen + RoundUp(askSize + t + x, MIN_HEAP_INCREMENT) + x, entrySize);
    }
  }

  /** What the sizing loop settles on. */
  ghost predicate Settled(e: Expansion, askSize: nat, blocksLen: nat, curTable: nat, noNextRegion: bool,
                          initialSize: nat, entrySize: nat)
  {
    var asked := RoundUp(askSize, MIN_HEAP_INCREMENT);
    match e
    case First(size) => size == asked && Unadjusted(blocksLen, initialSize)
    case Kept(size) =>
      && size == asked && !Unadjusted(blocksLen, initialSize)
      && NumHeapBlocksToNumBlocks(blocksLen + size + Extra(noNextRegion), entrySize) <= curTable
    case Adjusted(size, table) =>
      && size == RoundUp(askSize + table + Extra(noNextRegion), MIN_HEAP_INCREMENT)
      && !Unadjusted(blocksLen, initialSize)
      && NumHeapBlocksToNumBlocks(blocksLen + asked + Extra(noNextRegion), entrySize) > curTable
      && NumHeapBlocksToNumBlocks(blocksLen + size + Extra(noNextRegion), entrySize) <= table
      && LeastTable(table, askSize, blocksLen, noNextRegion, entrySize)
  }

  /** The sizing loop. It ends for every request if a table entry is smaller than a page, and with the smallest table
      that is large enough for the blocks that it makes. There is a table as soon as there are blocks. */
  method Settle(askSize: nat, blocksLen: nat, curTable: nat, noNextRegion: bool, initialSize: nat, entrySize: nat)
    returns (e: Expansion)
    requires 0 < entrySize < BLOCK_SIZE && (blocksLen == 0 ==> curTable == 0)
    ensures e.size % MIN_HEAP_INCREMENT == 0
    ensures Settled(e, askSize, blocksLen, curTable, noNextRegion, initialSize, entrySize)
    ensures e.Kept? ==> 0 < curTable
  {
    hide NumHeapBlocksToNumBlocks, RoundUp, LeastTable, TableFor, Extra, Settled;
    var size: nat := RoundUp(askSize, MIN_HEAP_INCREMENT);
    if blocksLen != 0 || initialSize == 0 {
      var newBlocks := true;   // the old table
      var extraBlocks := Extra(noNextRegion);
      ghost var c := blocksLen + askSize + 2 * extraBlocks + 31;
      var curHeapBlocksSize: nat := curTable;
      TableBounded(c, 0, blocksLen + size + extraBlocks, entrySize);
      TablePages(blocksLen + size + extraBlocks, entrySize);
      var newHeapBlocksSize: nat := NumHeapBlocksToNumBlocks(blocksLen + size + extraBlocks, entrySize);
      FirstTable(askSize, blocksLen, noNextRegion, entrySize);
      while newHeapBlocksSize > curHeapBlocksSize
        invariant newHeapBlocksSize ==
                  NumHeapBlocksToNumBlocks(blocksLen + size + extraBlocks, entrySize) <= 4095 * (c + 1)
        invariant size % MIN_HEAP_INCREMENT == 0
        invariant newBlocks ==> curHeapBlocksSize == curTable && size == RoundUp(askSize, MIN_HEAP_INCREMENT)
        invariant !newBlocks ==>
                    size == RoundUp(askSize + curHeapBlocksSize + extraBlocks, MIN_HEAP_INCREMENT) &&
                    NumHeapBlocksToNumBlocks(blocksLen + RoundUp(askSize, MIN_HEAP_INCREMENT) + extraBlocks,
                                             entrySize) > curTable
        invariant LeastTable(newHeapBlocksSize, askSize, blocksLen, noNextRegion, entrySize)
        invariant !newBlocks ==> LeastTable(curHeapBlocksSize, askSize, blocksLen, noNextRegion, entrySize)
        decreases 4095 * (c + 1) - curHeapBlocksSize
      {
        NextTable(newHeapBlocksSize, askSize, blocksLen, noNextRegion, entrySize);
        size := RoundUp(askSize + newHeapBlocksSize + extraBlocks, MIN_HEAP_INCREMENT);
        newBlocks := false;
        curHeapBlocksSize := newHeapBlocksSize;
        TableBounded(c, newHeapBlocksSize, blocksLen + size + extraBlocks, entrySize);
        newHeapBlocksSize := NumHeapBlocksToNumBlocks(blocksLen + size + extraBlocks, entrySize);
      }
      SomeTable(blocksLen + size + extraBlocks, entrySize);
      e := if newBlocks then Kept(size) else Adjusted(size, curHeapBlocksSize);
    } else {
      e := First(size);
    }
    IsSettled(e, askSize, blocksLen, curTable, noNextRegion, initialSize, entrySize);
  }

  lemma IsSettled(e: Expansion, askSize: nat, blocksLen: nat, curTable: nat, noNextRegion: bool, initialSize: nat,
                  entrySize: nat)
    requires e.First? <==> Unadjusted(blocksLen, initialSize)
    requires !e.Adjusted? ==> e.size == RoundUp(askSize, MIN_HEAP_INCREMENT)
    requires e.Kept? ==> NumHeapBlocksToNumBlocks(blocksLen + e.size + Extra(noNextRegion), entrySize) <= curTable
    requires e.Adjusted? ==>
      && e.size == RoundUp(askSize + e.table + Extra(noNextRegion), MIN_HEAP_INCREMENT)
      && NumHeapBlocksToNumBlocks(blocksLen + RoundUp(askSize, MIN_HEAP_INCREMENT) + Extra(noNextRegion), entrySize)
         > curTable
      && NumHeapBlocksToNumBlocks(blocksLen + e.size + Extra(noNextRegion), entrySize) <= e.table
      && LeastTable(e.table, askSize, blocksLen, noNextRegion, entrySize)
    ensures Settled(e, askSize, blocksLen, curTable, noNextRegion, initialSize, entrySize)
  {
  }

  lemma SomeTable(n: nat, entrySize: nat)
    requires 0 < n && 0 < entrySize
    ensures 0 < NumHeapBlocksToNumBlocks(n, entrySize)
  {
    hide NumHeapBlocksToNumBlocks;
    TablePages(n, entrySize);
    Times(1, n, entrySize);
  }

  /** If an entry took a page or more, a round of the loop would always be followed by another. */
  lemma NeverSettles(askSize: nat, blocksLen: nat, table: nat, extraBlocks: nat, entrySize: nat)
    requires BLOCK_SIZE <= entrySize && 1 <= extraBlocks
    ensures var size := RoundUp(askSize + table + extraBlocks, MIN_HEAP_INCREMENT);
      NumHeapBlocksToNumBlocks(blocksLen + size + extraBlocks, entrySize) > table
  {
    hide NumHeapBlocksToNumBlocks;
    var entries := blocksLen + RoundUp(askSize + table + extraBlocks, MIN_HEAP_INCREMENT) + extraBlocks;
    TablePages(entries, entrySize);
    Times(BLOCK_SIZE, entrySize, entries);
  }

  /** The pages left of an expansion after the new block table, for all blocks and the top sentinel, and a page of
      regions have been carved out of it. */
  function Left(e: Expansion, blocksLen: nat, contiguous: bool, noNextRegion: bool, entrySize: nat): int
    requires contiguous ==> blocksLen > 0
  {
    var newBlocksLen := (if contiguous then blocksLen - 1 else blocksLen) + e.size + 1;
    e.size - (if e.Kept? then 0 else NumHeapBlocksToNumBlocks(newBlocksLen, entrySize))
        - if noNextRegion then 1 else 0
  }

  /** The gap that rounding up the request leaves. */
  function Gap(askSize: nat): (r: nat)
    ensures r < MIN_HEAP_INCREMENT && (r == 0 <==> askSize % MIN_HEAP_INCREMENT == 0)
  {
    RoundUp(askSize, MIN_HEAP_INCREMENT) - askSize
  }

  /** What the request must leave when it is rounded up, for what is left of the expansion to suffice: nothing if it was
      adjusted, a page for regions, if one is needed, if the old table is kept, and the new table as well at first. */
  function Needed(e: Expansion, noNextRegion: bool, entrySize: nat): nat {
    (if noNextRegion && !e.Adjusted? then 1 else 0)
    + if e.First? then NumHeapBlocksToNumBlocks(e.size + 1, entrySize) else 0
  }

  lemma LeftSuffices(askSize: nat, blocksLen: nat, curTable: nat, contiguous: bool, noNextRegion: bool,
                     initialSize: nat, entrySize: nat, e: Expansion)
    requires 0 < entrySize < BLOCK_SIZE && (contiguous ==> blocksLen > 0)
    requires Settled(e, askSize, blocksLen, curTable, noNextRegion, initialSize, entrySize)
    ensures Left(e, blocksLen, contiguous, noNextRegion, entrySize) >= askSize <==>
              Gap(askSize) >= Needed(e, noNextRegion, entrySize)
    ensures !e.Adjusted? ==>
              Left(e, blocksLen, contiguous, noNextRegion, entrySize) ==
              askSize + Gap(askSize) - Needed(e, noNextRegion, entrySize)
  {
    hide NumHeapBlocksToNumBlocks, RoundUp;
    var newBlocksLen := (if contiguous then blocksLen - 1 else blocksLen) + e.size + 1;
    TableMonotone(newBlocksLen, blocksLen + e.size + Extra(noNextRegion), entrySize);
  }

  /** So an expansion that keeps the table is one page short at most, just for a multiple of 32 pages. */
  lemma KeptSuffices(askSize: nat, blocksLen: nat, curTable: nat, contiguous: bool, noNextRegion: bool,
                     initialSize: nat, entrySize: nat, e: Expansion)
    requires 0 < entrySize < BLOCK_SIZE && (contiguous ==> blocksLen > 0) && e.Kept?
    requires Settled(e, askSize, blocksLen, curTable, noNextRegion, initialSize, entrySize)
    ensures Left(e, blocksLen, contiguous, noNextRegion, entrySize) >= askSize <==>
              !(noNextRegion && askSize % MIN_HEAP_INCREMENT == 0)
    ensures Left(e, blocksLen, contiguous, noNextRegion, entrySize) >= askSize - 1
  {
    LeftSuffices(askSize, blocksLen, curTable, contiguous, noNextRegion, initialSize, entrySize, e);
  }

  /** The first one is never enough for a multiple of 32 pages, as the initial size by default is; and for a large
      request, with no room for the table in the gap, it is never enough at all. */
  lemma FirstFallsShort(askSize: nat, noNextRegion: bool, initialSize: nat, entrySize: nat, e: Expansion)
    requires 0 < entrySize < BLOCK_SIZE && e.First? && Settled(e, askSize, 0, 0, noNextRegion, initialSize, entrySize)
    requires askSize % MIN_HEAP_INCREMENT == 0 || askSize * entrySize >= 31 * BLOCK_SIZE
    ensures Left(e, 0, false, noNextRegion, entrySize) < askSize
  {
    hide NumHeapBlocksToNumBlocks, RoundUp;
    LeftSuffices(askSize, 0, 0, false, noNextRegion, initialSize, entrySize, e);
    SomeTable(e.size + 1, entrySize);
    if askSize * entrySize >= 31 * BLOCK_SIZE { LargeTable(askSize, e.size + 1, entrySize); }
  }

  lemma LargeTable(askSize: nat, n: nat, entrySize: nat)
    requires 0 < entrySize && askSize < n && askSize * entrySize >= 31 * BLOCK_SIZE
    ensures 32 <= NumHeapBlocksToNumBlocks(n, entrySize)
  {
    hide NumHeapBlocksToNumBlocks;
    TablePages(n, entrySize);
    Times(askSize + 1, n, entrySize);
    assert (askSize + 1) * entrySize == askSize * entrySize + entrySize;
  }

  /** A heap of 100 slots, with a table of two pages, gets one page less than asked for: 48 bytes to an entry, no page
      of regions left, and 32 pages wanted. */
  method OnePageShort() returns (e: Expansion)
    ensures e == Kept(32) && Left(e, 100, false, true, 48) == 31
    ensures Settled(e, 32, 100, 2, true, 512, 48)
  {
    e := Settle(32, 100, 2, true, 512, 48);
  }
}
