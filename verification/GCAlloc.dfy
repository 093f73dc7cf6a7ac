/** The small-object allocator of MMgc/GCAlloc.cpp: quick list, free lists, and lazy sweeping. */
module GCAlloc {
  import opened Basics
  import TriColour
  import Probing
  import opened SmallBlocks

  /** What the budget has to do with: the length of the quick list, and the items that budget was obtained for. */
  datatype QuickList = QuickList(itemSize: nat, itemsPerBlock: nat, length: nat, obtained: int)

  class GCAlloc {
    const m_itemSize: nat
    const m_itemsPerBlock: nat
    const containsFinalizedObjects: bool
    var blocks: map<nat, GCBlock>      // by address
    var chunks: seq<nat>               // all blocks, from m_firstBlock on
    var freeList: seq<nat>             // blocks with free items, from m_firstFree on
    var sweepList: seq<nat>            // blocks to be swept, from m_needsSweeping on
    var m_qList: seq<Item>
    var m_qBudget: int                 // items that may still be freed before more budget is needed
    var m_qBudgetObtained: int
    var m_totalAllocatedBytes: int
    ghost var occupied: set<Item>      // the items on no free list
    ghost var failed: nat              // the allocations that have failed

    ghost function S(): Chunks
      reads this
    {
      Chunks(blocks, chunks, freeList, sweepList, m_qList)
    }

    /** What counts as allocated is what is on no free list - and the allocations that failed, which are counted
        before they are tried. */
    ghost predicate Sound()
      reads this
    {
      && 0 < m_itemSize && 0 < m_itemsPerBlock && Ok(S(), m_itemsPerBlock)
      && (forall x :: x in occupied <==> Occupied(S(), m_itemsPerBlock, x))
      && m_totalAllocatedBytes == m_itemSize * (|occupied| + failed)
    }

    /** The quick list is as long as the budget used up. */
    ghost predicate Valid()
      reads this
    {
      Sound() && |m_qList| == m_qBudgetObtained - m_qBudget && m_qBudgetObtained >= m_itemsPerBlock
    }

    /** Outside marking, no block that is not to be swept has a mark. */
    ghost predicate Tidy()
      reads `blocks
    {
      TidyBlocks(blocks, m_itemsPerBlock)
    }

    static ghost predicate TidyBlocks(blocks: map<nat, GCBlock>, n: nat) {
      forall b :: b in blocks && !blocks[b].needsSweeping ==> AllClear(blocks[b], n)
    }

    ghost predicate Alive(x: Item)
      reads this
    {
      Live(S(), m_itemsPerBlock, x)
    }

    function List(): QuickList
      reads this
    {
      QuickList(m_itemSize, m_itemsPerBlock, |m_qList|, m_qBudgetObtained)
    }

    constructor (itemSize: nat, itemsPerBlock: nat, containsFinalizedObjects: bool)
      requires 0 < itemSize && 0 < itemsPerBlock
      ensures Valid() && m_itemSize == itemSize && m_itemsPerBlock == itemsPerBlock
      ensures this.containsFinalizedObjects == containsFinalizedObjects
      ensures m_qList == [] && sweepList == [] && m_qBudget == m_qBudgetObtained == itemsPerBlock
      ensures blocks == map[] && forall x :: !Alive(x)
    {
      m_itemSize, m_itemsPerBlock := itemSize, itemsPerBlock;
      this.containsFinalizedObjects := containsFinalizedObjects;
      blocks, chunks, freeList, sweepList, m_qList := map[], [], [], [], [];
      m_qBudget, m_qBudgetObtained, m_totalAllocatedBytes := itemsPerBlock, itemsPerBlock, 0;
      occupied, failed := {}, 0;
    }

    /** The number of items allocated, where garbage that is not yet swept counts as well. */
    method GetAllocStats() returns (numAlloc: int, maxAlloc: int)
      requires Valid()
      ensures numAlloc == |occupied| && maxAlloc == m_itemsPerBlock * |chunks|
      ensures m_totalAllocatedBytes == m_itemSize * numAlloc <==> failed == 0
    {
      hide Ok, Occupied;
      numAlloc, maxAlloc := 0, 0;
      var i := 0;
      AllInBlocks(S(), m_itemsPerBlock);
      while i < |chunks|
        invariant 0 <= i <= |chunks| && numAlloc == InUse(blocks, chunks[..i], m_itemsPerBlock)
        invariant maxAlloc == m_itemsPerBlock * i
      {
        assert chunks[..i + 1][..i] == chunks[..i];
        maxAlloc := maxAlloc + m_itemsPerBlock;
        numAlloc := numAlloc + (m_itemsPerBlock - blocks[chunks[i]].numFree);
        i := i + 1;
      }
      assert chunks[..i] == chunks;
      InUseIsOccupied(S(), m_itemsPerBlock, occupied);
      numAlloc := numAlloc - (m_qBudgetObtained - m_qBudget);
      FailedBytes(m_itemSize, |occupied|, failed);
    }

    static lemma FailedBytes(size: nat, n: nat, failed: nat)
      requires 0 < size
      ensures size * (n + failed) == size * n <==> failed == 0
    {
      assert size * (n + failed) == size * n + size * failed;
      if failed > 0 { assert size * failed >= size; }
    }

    static lemma AllInBlocks(s: Chunks, n: nat)
      requires Ok(s, n)
      ensures forall i :: 0 <= i < |s.all| ==> s.all[i] in s.blocks
    {
      forall i | 0 <= i < |s.all| ensures s.all[i] in s.blocks { assert s.all[i] in s.all; }
    }

    // ----- Allocation

    method AllocFromQuickList() returns (item: Item)
      requires 0 < m_itemsPerBlock && Ok(S(), m_itemsPerBlock) && m_qList != []
      modifies `blocks, `m_qList, `m_qBudget
      ensures Ok(S(), m_itemsPerBlock) && |m_qList| == |old(m_qList)| - 1 && m_qBudget == old(m_qBudget) + 1
      ensures item == old(m_qList[0]) && !old(Occupied(S(), m_itemsPerBlock, item))
      ensures Occupied(S(), m_itemsPerBlock, item) && Alive(item)
      ensures SameLiveBut(old(S()), S(), m_itemsPerBlock, item) && SameOccupiedBut(old(S()), S(), m_itemsPerBlock, item)
      ensures blocks.Keys == old(blocks.Keys)
      ensures old(Tidy()) ==> Tidy()
    {
      hide Ok, Occupied, Live, SameLiveBut, SameOccupiedBut;
      PopOk(S(), m_itemsPerBlock);
      item := m_qList[0];
      m_qList := m_qList[1..];
      var b := blocks[item.blk];
      blocks := blocks[item.blk := b.(bits := b.bits[item.idx := CLEAR])];
      m_qBudget := m_qBudget + 1;
    }

    /** The free items of the first block become the quick list. There is always budget for that. */
    method FillQuickList() returns (needsBudget: bool)
      requires Valid() && m_qList == [] && freeList != []
      modifies `blocks, `freeList, `m_qList, `m_qBudget
      ensures Valid() && 0 < |m_qList| <= m_itemsPerBlock && !needsBudget && m_qBudget >= 0
      ensures blocks.Keys == old(blocks.Keys)
      ensures old(Tidy()) ==> Tidy()
      ensures SameLive(old(S()), S(), m_itemsPerBlock)
    {
      hide Ok, Occupied, Live, SameLive, SameOccupied;
      ghost var s := S();
      FillOk(S(), m_itemsPerBlock);
      var b := freeList[0];
      needsBudget := m_qBudget < blocks[b].numFree;
      m_qBudget := m_qBudget - blocks[b].numFree;
      var free := blocks[b].free;
      m_qList := seq(|free|, k requires 0 <= k < |free| => Item(b, free[k]));
      assert m_qList == ItemsOf(b, free);
      blocks := blocks[b := blocks[b].(free := [], numFree := 0)];
      freeList := freeList[1..];
      OccupiedStill(s, S(), m_itemsPerBlock, occupied);
    }

    /** A new block, all items of which are free; the heap may refuse it. */
    method CreateChunk(address: nat, refused: bool)
      requires Valid() && address !in blocks && freeList == []
      modifies `blocks, `chunks, `freeList
      ensures Valid() && SameLive(old(S()), S(), m_itemsPerBlock) && (freeList == [] <==> refused)
      ensures blocks.Keys == old(blocks.Keys) + if refused then {} else {address}
      ensures old(Tidy()) ==> Tidy()
    {
      hide Ok, Occupied, Live, SameLive, SameOccupied;
      ghost var s := S();
      if refused { LiveRefl(s, m_itemsPerBlock); return; }
      var b := GCBlock(seq(m_itemsPerBlock, i => FREELIST), seq(m_itemsPerBlock, i => i), m_itemsPerBlock, false);
      IsNew(b, m_itemsPerBlock);
      CreateOk(s, m_itemsPerBlock, address, b);
      blocks := blocks[address := b];
      chunks := chunks + [address];
      freeList := [address] + freeList;
      OccupiedStill(s, S(), m_itemsPerBlock, occupied);
    }

    static lemma IsNew(g: GCBlock, n: nat)
      requires |g.bits| == |g.free| == g.numFree == n && !g.needsSweeping
      requires forall i :: 0 <= i < n ==> g.bits[i] == FREELIST && g.free[i] == i
      ensures NewBlock(g, n)
    {
      forall i | 0 <= i < n ensures i in g.free { assert g.free[i] == i; }
    }

    static lemma LiveRefl(s: Chunks, n: nat)
      ensures SameLive(s, s, n)
    {
    }

    static lemma ButNothing(s: Chunks, n: nat, x: Item)
      ensures SameLiveBut(s, s, n, x)
    {
    }

    static lemma LiveBoth(s: Chunks, s1: Chunks, s2: Chunks, n: nat)
      requires SameLive(s, s1, n) && SameLive(s1, s2, n)
      ensures SameLive(s, s2, n)
    {
    }

    // ----- Sweeping

    /** SweepGuts: a marked or queued item stays and loses its marks, an unmarked one goes to the free list. */
    method SweepGuts(g: GCBlock) returns (g': GCBlock)
      requires BlockOk(g, m_itemsPerBlock)
      requires forall i :: 0 <= i < m_itemsPerBlock && g.bits[i] == FREELIST ==> i in g.free
      ensures Swept(g, g', m_itemsPerBlock) && g.numFree <= g'.numFree
    {
      var bits := g.bits;
      var free: seq<nat> := g.free;
      var numFree, i: nat := g.numFree, 0;
      while i < m_itemsPerBlock
        invariant 0 <= i <= m_itemsPerBlock == |bits| && numFree == |free| && NoDup(free) && g.numFree <= numFree
        invariant forall j :: i <= j < m_itemsPerBlock ==> bits[j] == g.bits[j]
        invariant forall j :: 0 <= j < i ==>
                    bits[j] == if g.bits[j] == FREELIST || g.bits[j] == CLEAR then FREELIST else CLEAR
        invariant forall j :: j in free ==> j < m_itemsPerBlock && bits[j] == FREELIST
        invariant forall j :: 0 <= j < m_itemsPerBlock && bits[j] == FREELIST ==> j in free
      {
        if bits[i].mark != bits[i].queued {
          bits := bits[i := CLEAR];
        } else if !bits[i].mark {
          NoDupCons(i, free);
          numFree, free := numFree + 1, [i] + free;
          bits := bits[i := FREELIST];
        }
        i := i + 1;
      }
      g' := GCBlock(bits, free, numFree, false);
    }

    /** Sweep: nothing live is lost; a block that turns out to be empty is given back. */
    method Sweep(b: nat) returns (gone: bool)
      requires Valid() && b in sweepList
      modifies `blocks, `chunks, `freeList, `sweepList, `m_totalAllocatedBytes, `occupied
      ensures Valid() && SameLive(old(S()), S(), m_itemsPerBlock)
      ensures sweepList == Without(old(sweepList), b) && |sweepList| == |old(sweepList)| - 1
      ensures gone <==> b !in blocks
      // it is given back just if no item of it survives
      ensures b in old(blocks) && (gone <==> old(AllClear(blocks[b], m_itemsPerBlock)))
      ensures gone ==> blocks == old(blocks) - {b}
      ensures !gone ==>
                blocks == old(blocks)[b := blocks[b]] && Swept(old(blocks[b]), blocks[b], m_itemsPerBlock)
      ensures !gone ==> AllClear(blocks[b], m_itemsPerBlock)
      ensures freeList == if old(Yields(blocks[b], m_itemsPerBlock)) then [b] + old(freeList) else old(freeList)
      ensures old(Tidy()) ==> Tidy()
    {
      hide Ok, Occupied, Live, SameLive, Swept, AllClear, NoDup, BlockOk, Yields;
      ToSweep(S(), m_itemsPerBlock, b);
      var g := SweepGuts(blocks[b]);
      SweptClear(blocks[b], g, m_itemsPerBlock);
      SweptEmpty(blocks[b], g, m_itemsPerBlock);
      SweptYields(blocks[b], g, m_itemsPerBlock);
      gone := g.numFree == m_itemsPerBlock;
      if gone {
        SweepAway(b, g);
      } else {
        SweepBack(b, g);
      }
    }

    /** The swept block has live items: it is on the free list now if it has free ones as well. */
    method SweepBack(b: nat, g: GCBlock)
      requires Valid() && b in sweepList && b in blocks && Swept(blocks[b], g, m_itemsPerBlock)
      modifies `blocks, `freeList, `sweepList, `m_totalAllocatedBytes, `occupied
      ensures Valid() && SameLive(old(S()), S(), m_itemsPerBlock)
      ensures sweepList == Without(old(sweepList), b) && blocks == old(blocks)[b := g]
      ensures freeList == if g.numFree > 0 then [b] + old(freeList) else old(freeList)
    {
      hide Ok, Occupied, Live, SameLive, Swept, NoDup, BlockOk, Without;
      ghost var s := S();
      ToSweep(s, m_itemsPerBlock, b);
      SweptCount(s, m_itemsPerBlock, b, g, occupied);
      Bytes(m_itemSize, |occupied|, failed, g.numFree - blocks[b].numFree);
      m_totalAllocatedBytes := m_totalAllocatedBytes - (g.numFree - blocks[b].numFree) * m_itemSize;
      sweepList := Without(sweepList, b);
      blocks := blocks[b := g];
      if g.numFree > 0 { freeList := [b] + freeList; }
      occupied := SweptItems(s, m_itemsPerBlock, b, occupied);
    }

    /** The swept block has nothing but free items, and is given back. */
    method SweepAway(b: nat, g: GCBlock)
      requires Valid() && b in sweepList && b in blocks && Swept(blocks[b], g, m_itemsPerBlock)
      requires g.numFree == m_itemsPerBlock
      modifies `blocks, `chunks, `sweepList, `m_totalAllocatedBytes, `occupied
      ensures Valid() && SameLive(old(S()), S(), m_itemsPerBlock)
      ensures sweepList == Without(old(sweepList), b) && blocks == old(blocks) - {b}
    {
      hide Ok, Occupied, Live, SameLive, NoDup, BlockOk, Without;
      ghost var s := S();
      ToSweep(s, m_itemsPerBlock, b);
      SweptCount(s, m_itemsPerBlock, b, g, occupied);
      SweptAway(s, m_itemsPerBlock, b, g, SweptItems(s, m_itemsPerBlock, b, occupied));
      Bytes(m_itemSize, |occupied|, failed, g.numFree - blocks[b].numFree);
      m_totalAllocatedBytes := m_totalAllocatedBytes - (g.numFree - blocks[b].numFree) * m_itemSize;
      sweepList := Without(sweepList, b);
      blocks := blocks - {b};
      chunks := Without(chunks, b);
      occupied := SweptItems(s, m_itemsPerBlock, b, occupied);
    }

    /** No mark is left in the block. */
    static ghost predicate AllClear(g: GCBlock, n: nat) {
      |g.bits| == n && forall i :: 0 <= i < n ==> g.bits[i] == CLEAR || g.bits[i] == FREELIST
    }

    static lemma SweptClear(g: GCBlock, g': GCBlock, n: nat)
      requires Swept(g, g', n)
      ensures AllClear(g', n)
    {
    }

    /** All items are free after sweeping just if none was marked or queued before. */
    static lemma SweptEmpty(g: GCBlock, g': GCBlock, n: nat)
      requires Swept(g, g', n)
      ensures g'.numFree == n <==> AllClear(g, n)
    {
      FullOfFree(g'.free, n);
      if g'.numFree == n {
        forall i | 0 <= i < n ensures g.bits[i] == CLEAR || g.bits[i] == FREELIST { assert i in g'.free; }
      }
      if AllClear(g, n) {
        forall i | 0 <= i < n ensures i in g'.free { assert g'.bits[i] == FREELIST; }
      }
    }

    /** Sweeping the block yields free items: some of its items are not marked, but not all of them. */
    static ghost predicate Yields(g: GCBlock, n: nat) {
      !AllClear(g, n) && |g.bits| == n && exists i :: 0 <= i < n && (g.bits[i] == CLEAR || g.bits[i] == FREELIST)
    }

    static lemma SweptYields(g: GCBlock, g': GCBlock, n: nat)
      requires Swept(g, g', n)
      ensures Yields(g, n) <==> 0 < g'.numFree && g'.numFree != n
    {
      SweptEmpty(g, g', n);
      if g'.numFree > 0 { assert g'.free[0] in g'.free; }
      if i :| 0 <= i < n && (g.bits[i] == CLEAR || g.bits[i] == FREELIST) {
        assert g'.bits[i] == FREELIST && i in g'.free;
      }
    }

    /** The first blocks of the list have been swept, and none but the last of them yielded anything. */
    static ghost predicate SweptLazily(blocks: map<nat, GCBlock>, list: seq<nat>, left: seq<nat>, swept: nat, n: nat) {
      && swept <= |list| && left == list[swept..]
      && forall j: nat :: j + 1 < swept ==> list[j] in blocks && !Yields(blocks[list[j]], n)
    }

    /** As before, but for the last one, which did not yield anything either if there are still no free items. */
    static ghost predicate Sweeping(blocks: map<nat, GCBlock>, list: seq<nat>, left: seq<nat>, swept: nat, free: bool,
                                    n: nat)
    {
      && SweptLazily(blocks, list, left, swept, n)
      && (!free && 0 < swept ==> list[swept - 1] in blocks && !Yields(blocks[list[swept - 1]], n))
    }

    static lemma SweepsOn(blocks: map<nat, GCBlock>, now: map<nat, GCBlock>, list: seq<nat>, left: seq<nat>, swept: nat,
                          n: nat)
      requires Sweeping(blocks, list, left, swept, false, n) && left != [] && NoDup(left)
      requires left[0] in blocks && left[0] in now && now[left[0]] == blocks[left[0]]
      ensures Sweeping(blocks, list, Without(left, left[0]), swept + 1, Yields(now[left[0]], n), n)
    {
      hide Yields, NoDup;
      WithoutFirst(left);
      assert left[1..] == list[swept + 1..];
    }

    static lemma WithoutFirst(s: seq<nat>)
      requires s != [] && NoDup(s)
      ensures Without(s, s[0]) == s[1..] && s[0] !in s[1..]
    {
      WithoutAbsent(s[1..], s[0]);
    }

    static lemma FullOfFree(free: seq<nat>, n: nat)
      requires NoDup(free) && forall i :: i in free ==> i < n
      ensures |free| == n <==> forall i :: 0 <= i < n ==> i in free
    {
      Probing.BelowSize(n);
      ElementsSize(free);
      var all, below := Elements(free), Probing.Below(n);
      assert forall i :: i in all <==> i in free;
      assert all <= below;
      if |all| == |below| {
        Probing.SubsetOfSameSize(all, below);
        forall i: nat | i < n ensures i in free { assert i in below; }
      }
      if forall i :: 0 <= i < n ==> i in free {
        forall i | i in below ensures i in all { assert i in free; }
        assert all == below;
      }
    }

    static lemma Bytes(size: int, n: int, failed: int, less: int)
      ensures size * (n + failed) - less * size == size * (n - less + failed)
    {
    }

    static lemma ToSweep(s: Chunks, n: nat, b: nat)
      requires Ok(s, n) && b in s.sweepList
      ensures b in s.blocks && s.blocks[b].needsSweeping && BlockOk(s.blocks[b], n)
      ensures forall i :: 0 <= i < n && s.blocks[b].bits[i] == FREELIST ==> i in s.blocks[b].free
      ensures (forall x :: x in s.qList ==> x.blk != b) && b !in s.freeList
      ensures |Without(s.sweepList, b)| == |s.sweepList| - 1
    {
      WithoutIs(s.sweepList, b);
      assert BlockOk(s.blocks[b], n);
      forall x | x in s.qList ensures x.blk != b { assert OnQuickList(s, n, x); }
    }

    static ghost function SweptItems(s: Chunks, n: nat, b: nat, occupied: set<Item>): (r: set<Item>)
      ensures forall x :: x in r <==> x in occupied && (x.blk == b ==> Live(s, n, x))
    {
      set x | x in occupied && (x.blk == b ==> Live(s, n, x))
    }

    static lemma SweptCount(s: Chunks, n: nat, b: nat, g: GCBlock, occupied: set<Item>)
      requires Ok(s, n) && b in s.sweepList && b in s.blocks && s.blocks[b].needsSweeping && Swept(s.blocks[b], g, n)
      requires (forall x :: x in occupied <==> Occupied(s, n, x)) && forall x :: x in s.qList ==> x.blk != b
      ensures var s' := SmallBlocks.Sweep(s, b, g); var r := SweptItems(s, n, b, occupied);
        && Ok(s', n) && SameLive(s, s', n)
        && (forall x :: x in r <==> Occupied(s', n, x)) && |r| == |occupied| - (g.numFree - s.blocks[b].numFree)
    {
      hide Ok, Swept, SameLive;
      SweepOk(s, n, b, g);
      Recount(s, SmallBlocks.Sweep(s, b, g), n, b, occupied, SweptItems(s, n, b, occupied));
    }

    /** Sweeping and giving back at once. */
    static lemma SweptAway(s: Chunks, n: nat, b: nat, g: GCBlock, occupied: set<Item>)
      requires b in s.blocks && b !in s.freeList && g.numFree == n > 0 && !g.needsSweeping
      requires Ok(SmallBlocks.Sweep(s, b, g), n) && SameLive(s, SmallBlocks.Sweep(s, b, g), n)
      requires forall x :: x in occupied <==> Occupied(SmallBlocks.Sweep(s, b, g), n, x)
      requires forall x :: x in s.qList ==> x.blk != b
      ensures var s' := s.(blocks := s.blocks - {b}, all := Without(s.all, b), sweepList := Without(s.sweepList, b));
        && Ok(s', n) && SameLive(s, s', n) && forall x :: x in occupied <==> Occupied(s', n, x)
    {
      hide Ok, SameLive, Occupied, Live;
      var s1 := SmallBlocks.Sweep(s, b, g);
      assert Without([b] + s.freeList, b) == s.freeList by { WithoutAbsent(s.freeList, b); }
      var s' := s.(blocks := s.blocks - {b}, all := Without(s.all, b), sweepList := Without(s.sweepList, b));
      assert s' == Drop(s1, b) by { assert s.blocks[b := g] - {b} == s.blocks - {b}; }
      DropEmpty(s1, n, b);
      OccupiedStill(s1, s', n, occupied);
      LiveBoth(s, s1, s', n);
    }

    static lemma OccupiedStill(s: Chunks, s': Chunks, n: nat, occupied: set<Item>)
      requires SameOccupied(s, s', n) && forall x :: x in occupied <==> Occupied(s, n, x)
      ensures forall x :: x in occupied <==> Occupied(s', n, x)
    {
    }

    /** A block with nothing but free items may be given back. */
    static lemma DropEmpty(s: Chunks, n: nat, b: nat)
      requires Ok(s, n) && b in s.blocks && !s.blocks[b].needsSweeping && s.blocks[b].numFree == n
      requires forall x :: x in s.qList ==> x.blk != b
      ensures Ok(Drop(s, b), n) && SameLive(s, Drop(s, b), n) && SameOccupied(s, Drop(s, b), n)
    {
      hide Ok;
      BlockOccupied(s, n, b);
      DropOk(s, n, b);
      assert NotFree(b, s.blocks[b], n) == {};
    }

    // ----- Alloc

    /** AllocSlow, up to the point where the quick list is not empty: blocks are swept as long as there are any, and
        only then is a new one wanted. */
    method Refill(address: nat, refused: bool) returns (ok: bool)
      requires Valid() && m_qList == [] && address !in blocks
      modifies `blocks, `chunks, `freeList, `sweepList, `m_qList, `m_qBudget, `m_totalAllocatedBytes, `occupied
      ensures Valid() && SameLive(old(S()), S(), m_itemsPerBlock)
      ensures ok ==> 0 < |m_qList| <= m_itemsPerBlock && m_qBudget >= 0
      ensures !ok ==> m_qBudget == old(m_qBudget)
      ensures !ok ==> refused && sweepList == [] && m_qList == []
      ensures old(sweepList) == [] ==> sweepList == []
      // a new block is taken only if none is left to be swept, and nothing at all happens to blocks if one has free
      // items
      ensures blocks.Keys <= old(blocks.Keys) + {address} && (address in blocks ==> sweepList == [])
      ensures old(freeList) != [] ==> sweepList == old(sweepList) && blocks.Keys == old(blocks.Keys)
      // no more blocks are swept than it takes
      ensures exists swept: nat :: SweptLazily(old(blocks), old(sweepList), sweepList, swept, m_itemsPerBlock)
      ensures old(Tidy()) ==> Tidy()
    {
      hide Ok, Occupied, Live, SameLive, AllClear, Swept, Yields, Sweeping;
      ghost var s := S();
      ghost var swept: nat := 0;
      LiveRefl(s, m_itemsPerBlock);
      NothingSwept(s, m_itemsPerBlock, freeList != []);
      while freeList == []
        invariant Valid() && SameLive(s, S(), m_itemsPerBlock) && m_qList == [] && address !in blocks
        invariant m_qBudget == old(m_qBudget) && (old(sweepList) == [] ==> sweepList == [])
        invariant blocks.Keys <= old(blocks.Keys)
        invariant old(freeList) != [] ==>
                    sweepList == old(sweepList) && blocks.Keys == old(blocks.Keys) && freeList != []
        invariant old(Tidy()) ==> Tidy()
        invariant Sweeping(s.blocks, s.sweepList, sweepList, swept, freeList != [], m_itemsPerBlock)
        invariant forall b :: b in sweepList ==> b in s.blocks && b in blocks && blocks[b] == s.blocks[b]
        decreases |sweepList|
      {
        ghost var s1 := S();
        if sweepList != [] {
          FirstToSweep(s1, m_itemsPerBlock);
          SweepsOn(s.blocks, blocks, s.sweepList, sweepList, swept, m_itemsPerBlock);
          var _ := Sweep(sweepList[0]);
          swept := swept + 1;
          LiveBoth(s, s1, S(), m_itemsPerBlock);
        } else {
          CreateChunk(address, refused);
          LiveBoth(s, s1, S(), m_itemsPerBlock);
          SweepsFree(s, sweepList, swept, m_itemsPerBlock);
          if freeList == [] { return false; }
          break;
        }
      }
      ghost var s2 := S();
      SweepsFree(s, sweepList, swept, m_itemsPerBlock);
      var _ := FillQuickList();
      LiveBoth(s, s2, S(), m_itemsPerBlock);
      ok := true;
    }

    static lemma NothingSwept(s: Chunks, n: nat, free: bool)
      requires Ok(s, n)
      ensures Sweeping(s.blocks, s.sweepList, s.sweepList, 0, free, n)
      ensures forall b :: b in s.sweepList ==> b in s.blocks
    {
    }

    static lemma NoneSwept(s: Chunks, n: nat)
      ensures SweptLazily(s.blocks, s.sweepList, s.sweepList, 0, n)
    {
    }

    static lemma FirstToSweep(s: Chunks, n: nat)
      requires Ok(s, n) && s.sweepList != []
      ensures NoDup(s.sweepList) && s.sweepList[0] in s.sweepList
      ensures forall b :: b in Without(s.sweepList, s.sweepList[0]) <==> b in s.sweepList && b != s.sweepList[0]
    {
      WithoutIs(s.sweepList, s.sweepList[0]);
    }

    static lemma SweepsFree(s: Chunks, left: seq<nat>, swept: nat, n: nat)
      requires exists free :: Sweeping(s.blocks, s.sweepList, left, swept, free, n)
      ensures SweptLazily(s.blocks, s.sweepList, left, swept, n)
    {
    }

    /** Alloc: an item that was not allocated is so now, and all others are as before. It fails only if the heap
        refuses a block when there is nothing left to sweep - but is counted even so. */
    method Alloc(address: nat, refused: bool) returns (item: Option<Item>)
      requires Valid() && address !in blocks
      modifies `blocks, `chunks, `freeList, `sweepList, `m_qList, `m_qBudget, `m_totalAllocatedBytes, `occupied, `failed
      ensures Valid()
      ensures item.Some? ==>
                !old(Alive(item.value)) && Alive(item.value) && SameLiveBut(old(S()), S(), m_itemsPerBlock, item.value)
      ensures item.None? ==> refused && sweepList == [] && SameLive(old(S()), S(), m_itemsPerBlock)
      ensures failed == old(failed) + if item.Some? then 0 else 1
      ensures old(sweepList) == [] ==> sweepList == []
      ensures blocks.Keys <= old(blocks.Keys) + {address} && (address in blocks ==> sweepList == [])
      ensures old(m_qList) != [] || old(freeList) != [] ==>
                sweepList == old(sweepList) && blocks.Keys == old(blocks.Keys)
      ensures exists swept: nat :: SweptLazily(old(blocks), old(sweepList), sweepList, swept, m_itemsPerBlock)
      ensures |m_qList| < Max(old(|m_qList|), m_itemsPerBlock)
      ensures old(m_qBudget) >= 0 ==> m_qBudget >= 0
      ensures old(Tidy()) ==> Tidy()
    {
      hide Ok, Occupied, Live, SameLive, SameLiveBut, SameOccupiedBut, Yields;
      ghost var s := S();
      LiveRefl(s, m_itemsPerBlock);
      NoneSwept(s, m_itemsPerBlock);
      m_totalAllocatedBytes := m_totalAllocatedBytes + m_itemSize;
      failed := failed + 1;
      assert m_itemSize * (|occupied| + failed) == m_itemSize * (|occupied| + old(failed)) + m_itemSize;
      if m_qList == [] {
        var ok := Refill(address, refused);
        if !ok { return None; }
      }
      ghost var s1 := S();
      var x := TakeItem();
      LiveThen(s, s1, S(), m_itemsPerBlock, x);
      item := Some(x);
    }

    /** The item counted before is there. */
    method TakeItem() returns (item: Item)
      requires Valid() && m_qList != [] && failed > 0
      modifies `blocks, `m_qList, `m_qBudget, `occupied, `failed
      ensures Valid() && failed == old(failed) - 1 && blocks.Keys == old(blocks.Keys)
      ensures |m_qList| == |old(m_qList)| - 1 && m_qBudget == old(m_qBudget) + 1
      ensures !old(Alive(item)) && Alive(item) && SameLiveBut(old(S()), S(), m_itemsPerBlock, item)
      ensures old(Tidy()) ==> Tidy()
    {
      hide Ok, Occupied, Live, SameLive, SameLiveBut, SameOccupiedBut;
      ghost var s := S();
      LiveRefl(s, m_itemsPerBlock);
      item := AllocFromQuickList();
      NowOccupied(s, S(), m_itemsPerBlock, item, occupied);
      NowLive(s, s, S(), m_itemsPerBlock, item);
      occupied := occupied + {item};
      failed := failed - 1;
    }

    static lemma LiveThen(s: Chunks, s1: Chunks, s2: Chunks, n: nat, x: Item)
      requires SameLive(s, s1, n) && SameLiveBut(s1, s2, n, x) && !Live(s1, n, x)
      ensures SameLiveBut(s, s2, n, x) && !Live(s, n, x)
    {
    }

    static lemma NowOccupied(s: Chunks, s': Chunks, n: nat, x: Item, occupied: set<Item>)
      requires SameOccupiedBut(s, s', n, x) && Occupied(s', n, x) && !Occupied(s, n, x)
      requires forall y :: y in occupied <==> Occupied(s, n, y)
      ensures forall y :: y in occupied + {x} <==> Occupied(s', n, y)
      ensures |occupied + {x}| == |occupied| + 1
    {
    }

    static lemma NowLive(s: Chunks, s1: Chunks, s2: Chunks, n: nat, x: Item)
      requires SameLive(s, s1, n) && SameLiveBut(s1, s2, n, x) && !Occupied(s1, n, x)
      ensures SameLiveBut(s, s2, n, x) && !Live(s, n, x)
    {
      assert !Live(s1, n, x);
    }

    // ----- Free

    /** Freeing the item would use up the budget for the quick list. */
    predicate Exhausts(item: Item, marking: bool)
      reads this
    {
      && item.blk in blocks && item.idx < |blocks[item.blk].bits| && !blocks[item.blk].needsSweeping
      && !(marking && blocks[item.blk].bits[item.idx].queued) && m_qBudget <= 1
    }

    /** Free: an allocated item is so no more, and all others are as before - unless the marker has it in its queue,
        when nothing happens. An item in a block that is yet to be swept causes the sweep; otherwise the item is on
        the quick list now, and the budget may be exhausted. */
    method Free(item: Item, marking: bool) returns (freed: bool, exhausted: bool)
      requires Valid() && Alive(item)
      modifies `blocks, `chunks, `freeList, `sweepList, `m_qList, `m_qBudget, `m_totalAllocatedBytes, `occupied
      ensures Valid()
      ensures freed <==> !(marking && old(blocks[item.blk].bits[item.idx].queued))
      ensures freed ==> !Alive(item) && SameLiveBut(old(S()), S(), m_itemsPerBlock, item)
      ensures !freed ==> S() == old(S()) && !exhausted
      ensures m_qBudgetObtained == old(m_qBudgetObtained) && m_qBudget >= old(m_qBudget) - 1
      ensures |m_qList| <= old(|m_qList|) + 1 && (exhausted ==> m_qBudgetObtained <= |m_qList|)
      ensures !exhausted ==> m_qBudget > 0 || m_qBudget == old(m_qBudget)
      ensures exhausted <==> old(Exhausts(item, marking))
      ensures freed && !old(blocks[item.blk].needsSweeping) ==> |m_qList| == old(|m_qList|) + 1
      ensures old(sweepList) == [] ==> sweepList == []
      ensures old(Tidy()) ==> Tidy()
    {
      hide Ok, SameLive, SameLiveBut, SameOccupiedBut;
      if marking && blocks[item.blk].bits[item.idx].queued { return false, false; }
      freed := true;
      if blocks[item.blk].needsSweeping {
        FreeSlow(item);
        exhausted := false;
      } else {
        FreeFast(item);
        exhausted := m_qBudget <= 0;
      }
    }

    method FreeFast(item: Item)
      requires Valid() && Alive(item) && !blocks[item.blk].needsSweeping
      modifies `blocks, `m_qList, `m_qBudget, `m_totalAllocatedBytes, `occupied
      ensures Valid() && !Alive(item) && SameLiveBut(old(S()), S(), m_itemsPerBlock, item)
      ensures m_qBudget == old(m_qBudget) - 1
      ensures old(Tidy()) ==> Tidy()
    {
      hide Ok, SameLiveBut, SameOccupiedBut;
      ghost var s := S();
      var b := blocks[item.blk];
      Bytes(m_itemSize, |occupied|, failed, 1);
      m_totalAllocatedBytes := m_totalAllocatedBytes - m_itemSize;
      PushQuickOk(s, m_itemsPerBlock, item);
      NoneOccupied(s, PushQuick(s, item), m_itemsPerBlock, item, occupied);
      blocks := blocks[item.blk := b.(bits := b.bits[item.idx := FREELIST])];
      occupied := occupied - {item};
      m_qList := [item] + m_qList;
      m_qBudget := m_qBudget - 1;
    }

    method FreeSlow(item: Item)
      requires Valid() && Alive(item) && blocks[item.blk].needsSweeping
      modifies `blocks, `chunks, `freeList, `sweepList, `m_totalAllocatedBytes, `occupied
      ensures Valid() && !Alive(item) && SameLiveBut(old(S()), S(), m_itemsPerBlock, item)
      ensures old(sweepList) != []
      ensures old(Tidy()) ==> Tidy()
    {
      hide Ok, SameLiveBut, SameOccupiedBut;
      ghost var s := S();
      InSweepList(s, m_itemsPerBlock, item.blk);
      var b := blocks[item.blk];
      Bytes(m_itemSize, |occupied|, failed, 1);
      m_totalAllocatedBytes := m_totalAllocatedBytes - m_itemSize;
      PushFreeOk(s, m_itemsPerBlock, item);
      NoneOccupied(s, PushFree(s, item), m_itemsPerBlock, item, occupied);
      var b' := b.(bits := b.bits[item.idx := FREELIST], free := [item.idx] + b.free, numFree := b.numFree + 1);
      blocks := blocks[item.blk := b'];
      occupied := occupied - {item};
      SweepNow(item, s);
    }

    static lemma NoneOccupied(s: Chunks, s': Chunks, n: nat, x: Item, occupied: set<Item>)
      requires SameOccupiedBut(s, s', n, x) && !Occupied(s', n, x) && Occupied(s, n, x)
      requires forall y :: y in occupied <==> Occupied(s, n, y)
      ensures forall y :: y in occupied - {x} <==> Occupied(s', n, y)
      ensures |occupied - {x}| == |occupied| - 1 && !Live(s', n, x)
    {
    }

    method SweepNow(item: Item, ghost s: Chunks)
      requires Valid() && item.blk in blocks && blocks[item.blk].needsSweeping
      requires SameLiveBut(s, S(), m_itemsPerBlock, item) && !Alive(item)
      modifies `blocks, `chunks, `freeList, `sweepList, `m_totalAllocatedBytes, `occupied
      ensures Valid() && SameLiveBut(s, S(), m_itemsPerBlock, item) && !Alive(item)
      ensures old(Tidy()) ==> Tidy()
    {
      hide Ok, SameLive, Live, Occupied;
      InSweepList(S(), m_itemsPerBlock, item.blk);
      ghost var s1 := S();
      var _ := Sweep(item.blk);
      LiveButBoth(s, s1, S(), m_itemsPerBlock, item);
    }

    static lemma InSweepList(s: Chunks, n: nat, b: nat)
      requires Ok(s, n) && b in s.blocks && s.blocks[b].needsSweeping
      ensures b in s.sweepList
    {
    }

    static lemma LiveButBoth(s: Chunks, s1: Chunks, s2: Chunks, n: nat, x: Item)
      requires SameLiveBut(s, s1, n, x) && SameLive(s1, s2, n) && !Live(s1, n, x)
      ensures SameLiveBut(s, s2, n, x) && !Live(s2, n, x)
    {
    }

    // ----- CoalesceQuickList

    /** CoalesceQuickList: the items go back to their blocks, blocks that are all free go back to the heap, and budget
        beyond a block's worth is relinquished. */
    method CoalesceQuickList() returns (relinquished: nat)
      requires Valid()
      modifies `blocks, `chunks, `freeList, `m_qList, `m_qBudget, `m_qBudgetObtained
      ensures Valid() && m_qList == [] && m_qBudget == m_qBudgetObtained == m_itemsPerBlock
      ensures relinquished == m_itemSize * (old(m_qBudgetObtained) - m_itemsPerBlock)
      ensures SameLive(old(S()), S(), m_itemsPerBlock)
      ensures forall b :: b in blocks ==> SameBits(old(blocks), blocks, b)
      // just the blocks with nothing but free items go
      ensures forall b :: b in blocks && !blocks[b].needsSweeping ==> blocks[b].numFree != m_itemsPerBlock
      ensures forall b :: b in old(blocks) && b !in blocks ==> AllFree(old(blocks)[b], m_itemsPerBlock)
      ensures old(Tidy()) ==> Tidy()
    {
      hide Ok, Occupied, Live, SameLive, SameOccupied;
      ghost var s := S();
      LiveRefl(s, m_itemsPerBlock);
      while m_qList != []
        invariant Sound() && SameLive(s, S(), m_itemsPerBlock) && m_qBudgetObtained == old(m_qBudgetObtained)
        invariant blocks.Keys == old(blocks.Keys) && forall b :: b in blocks ==> SameBits(old(blocks), blocks, b)
        decreases |m_qList|
      {
        CoalesceItem(s);
      }
      relinquished := 0;
      if m_qBudgetObtained > m_itemsPerBlock {
        relinquished := Product(m_qBudgetObtained - m_itemsPerBlock, m_itemSize);
        m_qBudgetObtained := m_itemsPerBlock;
      }
      m_qBudget := m_qBudgetObtained;
      ghost var s1 := S();
      FreeEmptyChunks();
      LiveBoth(s, s1, S(), m_itemsPerBlock);
    }

    static ghost predicate SameBits(blocks: map<nat, GCBlock>, blocks': map<nat, GCBlock>, b: nat)
      requires b in blocks'
    {
      b in blocks && blocks'[b].bits == blocks[b].bits && blocks'[b].needsSweeping == blocks[b].needsSweeping
    }

    /** The block is not to be swept, and all its items are free. */
    static ghost predicate AllFree(g: GCBlock, n: nat) {
      !g.needsSweeping && |g.bits| == n && forall i :: 0 <= i < n ==> g.bits[i] == FREELIST
    }

    static function Product(a: nat, b: nat): (r: nat)
      ensures r == b * a
    {
      a * b
    }

    method CoalesceItem(ghost s: Chunks)
      requires Sound() && m_qList != [] && SameLive(s, S(), m_itemsPerBlock)
      modifies `blocks, `freeList, `m_qList
      ensures Sound() && SameLive(s, S(), m_itemsPerBlock) && m_qList == old(m_qList)[1..]
      ensures blocks.Keys == old(blocks.Keys)
      ensures forall b :: b in blocks ==> SameBits(old(blocks), blocks, b)
    {
      hide Ok, Occupied, Live, SameLive, SameOccupied;
      ghost var s1 := S();
      CoalesceOk(s1, m_itemsPerBlock);
      var item := m_qList[0];
      var b := blocks[item.blk];
      m_qList := m_qList[1..];
      if b.numFree == 0 { freeList := [item.blk] + freeList; }
      blocks := blocks[item.blk := b.(free := [item.idx] + b.free, numFree := b.numFree + 1)];
      OccupiedStill(s1, S(), m_itemsPerBlock, occupied);
      LiveBoth(s, s1, S(), m_itemsPerBlock);
    }

    /** Blocks on the free list with nothing but free items are given back. */
    method FreeEmptyChunks()
      requires Valid() && m_qList == []
      modifies `blocks, `chunks, `freeList
      ensures Valid() && SameLive(old(S()), S(), m_itemsPerBlock)
      ensures forall b :: b in blocks ==> b in old(blocks) && blocks[b] == old(blocks)[b]
      ensures forall b :: b in blocks && !blocks[b].needsSweeping ==> blocks[b].numFree != m_itemsPerBlock
      ensures forall b :: b in old(blocks) && b !in blocks ==> AllFree(old(blocks)[b], m_itemsPerBlock)
    {
      hide Ok, Occupied, Live, SameLive, NoDup, AllFree;
      ghost var s := S();
      LiveRefl(s, m_itemsPerBlock);
      FreeListOk(s, m_itemsPerBlock);
      var rest := freeList;
      while rest != []
        invariant Valid() && SameLive(s, S(), m_itemsPerBlock) && m_qList == [] && NoDup(rest)
        invariant forall b :: b in rest ==> b in blocks && !blocks[b].needsSweeping
        invariant forall b :: b in blocks ==> b in old(blocks) && blocks[b] == old(blocks)[b]
        invariant forall b :: b in blocks && !blocks[b].needsSweeping && blocks[b].numFree == m_itemsPerBlock ==>
                    b in rest
        invariant forall b :: b in old(blocks) && b !in blocks ==> AllFree(old(blocks)[b], m_itemsPerBlock)
        decreases |rest|
      {
        NoDupTail(rest);
        var b := rest[0];
        rest := rest[1..];
        if blocks[b].numFree == m_itemsPerBlock {
          FreeIsAllFree(S(), m_itemsPerBlock, b);
          FreeChunk(b, s);
        }
      }
    }

    static lemma FreeListOk(s: Chunks, n: nat)
      requires Ok(s, n)
      ensures NoDup(s.freeList) && forall b :: b in s.freeList ==> b in s.blocks && !s.blocks[b].needsSweeping
      ensures forall b :: b in s.blocks && !s.blocks[b].needsSweeping && s.blocks[b].numFree > 0 ==> b in s.freeList
    {
    }

    static lemma FreeIsAllFree(s: Chunks, n: nat, b: nat)
      requires Ok(s, n) && b in s.blocks && !s.blocks[b].needsSweeping && s.blocks[b].numFree == n
      ensures AllFree(s.blocks[b], n)
    {
      assert BlockOk(s.blocks[b], n);
      FullOfFree(s.blocks[b].free, n);
    }

    method FreeChunk(b: nat, ghost s: Chunks)
      requires Valid() && b in blocks && !blocks[b].needsSweeping && blocks[b].numFree == m_itemsPerBlock
      requires m_qList == []
      requires SameLive(s, S(), m_itemsPerBlock)
      modifies `blocks, `chunks, `freeList
      ensures Valid() && SameLive(s, S(), m_itemsPerBlock) && blocks == old(blocks) - {b}
    {
      hide Ok, Occupied, Live, SameLive, SameOccupied;
      ghost var s1 := S();
      DropEmpty(s1, m_itemsPerBlock, b);
      blocks := blocks - {b};
      chunks := Without(chunks, b);
      freeList := Without(freeList, b);
      OccupiedStill(s1, S(), m_itemsPerBlock, occupied);
      LiveBoth(s, s1, S(), m_itemsPerBlock);
    }

    // ----- Whole sweeps, and marks

    /** All pending blocks are swept: what is live stays so, what is not is free, and no mark is left anywhere. */
    method SweepNeedsSweeping()
      requires Valid() && (forall b :: b in blocks && !blocks[b].needsSweeping ==> AllClear(blocks[b], m_itemsPerBlock))
      modifies `blocks, `chunks, `freeList, `sweepList, `m_totalAllocatedBytes, `occupied
      ensures Valid() && sweepList == [] && SameLive(old(S()), S(), m_itemsPerBlock)
      ensures forall b :: b in blocks ==> !blocks[b].needsSweeping && AllClear(blocks[b], m_itemsPerBlock)
    {
      hide Ok, Occupied, Live, SameLive, AllClear;
      ghost var s := S();
      LiveRefl(s, m_itemsPerBlock);
      while sweepList != []
        invariant Valid() && SameLive(s, S(), m_itemsPerBlock)
        invariant forall b :: b in blocks && !blocks[b].needsSweeping ==> AllClear(blocks[b], m_itemsPerBlock)
        decreases |sweepList|
      {
        ghost var s1 := S();
        var _ := Sweep(sweepList[0]);
        LiveBoth(s, s1, S(), m_itemsPerBlock);
      }
      NoneToSweep(S(), m_itemsPerBlock);
    }

    static lemma NoneToSweep(s: Chunks, n: nat)
      requires Ok(s, n) && s.sweepList == []
      ensures forall b :: b in s.blocks ==> !s.blocks[b].needsSweeping
    {
    }

    /** The marker sets and clears the bits of an item; the pattern that means "free" is not its to set. */
    method SetBits(item: Item, bits: TriColour.GCBits)
      requires Valid() && Alive(item) && !blocks[item.blk].needsSweeping && bits != FREELIST
      modifies `blocks
      ensures Valid() && SameLive(old(S()), S(), m_itemsPerBlock)
      ensures item.blk in blocks && blocks[item.blk].bits == old(blocks[item.blk].bits)[item.idx := bits]
    {
      hide Ok, SameLive, SameOccupied;
      ghost var s := S();
      var b := blocks[item.blk];
      RemarkOk(s, m_itemsPerBlock, item.blk, b.(bits := b.bits[item.idx := bits]));
      blocks := blocks[item.blk := b.(bits := b.bits[item.idx := bits])];
      OccupiedStill(s, S(), m_itemsPerBlock, occupied);
    }

    // ----- Finalization

    /** After marking is complete: nothing is queued, and the quick list and the sweep list are empty. */
    ghost predicate Marked()
      reads this
    {
      && m_qList == [] && sweepList == []
      && forall b, i :: b in blocks && 0 <= i < |blocks[b].bits| ==>
           blocks[b].bits[i] == FREELIST || !blocks[b].bits[i].queued
    }

    /** What the end of a collection has to do: exactly what is live and marked stays live. */
    static ghost predicate KeepsMarked(s: Chunks, s': Chunks, n: nat, done: set<nat>) {
      forall x :: Live(s', n, x) <==> Live(s, n, x) && (x.blk in done ==> s.blocks[x.blk].bits[x.idx].mark)
    }

    /** The number of marked items of a block. */
    method CountMarks(g: GCBlock) returns (numMarked: nat)
      requires BlockOk(g, m_itemsPerBlock)
      requires forall i :: 0 <= i < m_itemsPerBlock && g.bits[i] == FREELIST ==> i in g.free
      requires forall i :: 0 <= i < m_itemsPerBlock ==> g.bits[i] == FREELIST || !g.bits[i].queued
      ensures numMarked == 0 <==> NoneMarked(g)
      ensures numMarked == m_itemsPerBlock - g.numFree <==> AllMarked(g)
    {
      ghost var marks: set<nat> := {};
      numMarked := 0;
      var i := 0;
      while i < m_itemsPerBlock
        invariant 0 <= i <= m_itemsPerBlock && numMarked == |marks|
        invariant forall j :: j in marks <==> 0 <= j < i && g.bits[j].mark && !g.bits[j].queued
      {
        if g.bits[i] != FREELIST && g.bits[i].mark {
          numMarked, marks := numMarked + 1, marks + {i};
        }
        i := i + 1;
      }
      MarksAreAll(g, m_itemsPerBlock, marks);
    }

    static ghost predicate NoneMarked(g: GCBlock) {
      forall i :: 0 <= i < |g.bits| ==> g.bits[i] == FREELIST || !g.bits[i].mark
    }

    static ghost predicate AllMarked(g: GCBlock) {
      forall i :: 0 <= i < |g.bits| ==> g.bits[i] == FREELIST || g.bits[i].mark
    }

    static lemma MarksAreAll(g: GCBlock, n: nat, marks: set<nat>)
      requires BlockOk(g, n) && forall i :: 0 <= i < n && g.bits[i] == FREELIST ==> i in g.free
      requires forall j :: j in marks <==> 0 <= j < n && g.bits[j].mark && !g.bits[j].queued
      ensures |marks| == 0 <==> forall j :: 0 <= j < n ==> !(g.bits[j].mark && !g.bits[j].queued)
      requires forall j :: 0 <= j < n ==> g.bits[j] == FREELIST || !g.bits[j].queued
      ensures |marks| == n - g.numFree <==> AllMarked(g)
    {
      Probing.BelowSize(n);
      ElementsSize(g.free);
      var rest := Probing.Below(n) - Elements(g.free);
      assert |rest| == n - g.numFree by {
        assert Elements(g.free) <= Probing.Below(n);
      }
      assert marks <= rest;
      if |marks| == |rest| { Probing.SubsetOfSameSize(marks, rest); }
      if AllMarked(g) { assert marks == rest; }
      if |marks| == 0 { assert marks == {}; }
    }

    /** FinalizationPass: a block without marks is given back, one in which all items are marked loses the marks,
        and any other is to be swept. */
    method FinalizationPass()
      requires Valid() && Marked()
      modifies `blocks, `chunks, `freeList, `sweepList, `m_totalAllocatedBytes, `occupied
      ensures Valid() && KeepsMarked(old(S()), S(), m_itemsPerBlock, old(blocks.Keys))
      ensures forall b :: b in blocks && !blocks[b].needsSweeping ==> AllClear(blocks[b], m_itemsPerBlock)
      ensures Judged(old(S()), blocks, old(blocks.Keys), false)
    {
      hide Ok, Occupied, Live, KeepsMarked, NoDup, BlockOk, Untouched, ClearIn, Marked, NoQueued, Judged;
      ghost var s := S();
      MarkedIs();
      StartFinalize(s, m_itemsPerBlock);
      NothingJudged(s);
      ghost var done: set<nat> := {};
      var i := 0;
      var all := chunks;
      while i < |all|
        invariant 0 <= i <= |all| && m_qList == [] && Valid() && KeepsMarked(s, S(), m_itemsPerBlock, done)
        invariant forall b :: b in done <==> b in all[..i]
        invariant Untouched(s, blocks, done) && ClearIn(blocks, done, m_itemsPerBlock) && Judged(s, blocks, done, false)
      {
        NextChunk(all, i, done);
        NextBlock(s, blocks, all[i], done);
        ghost var before := blocks;
        FinalizeBlock(all[i], s, done);
        StillUntouched(s, before, blocks, all[i], done, m_itemsPerBlock);
        StillJudged(s, before, blocks, all[i], done, false);
        done := done + {all[i]};
        i := i + 1;
      }
      assert all[..i] == all;
      AllDone(s, m_itemsPerBlock, done);
      AllCleared(s, blocks, done, m_itemsPerBlock);
    }

    lemma MarkedIs()
      requires Valid() && Marked()
      ensures m_qList == [] && sweepList == [] && NoQueued(S())
    {
    }

    static ghost predicate NoQueued(s: Chunks) {
      forall b, i :: b in s.blocks && 0 <= i < |s.blocks[b].bits| ==>
        s.blocks[b].bits[i] == FREELIST || !s.blocks[b].bits[i].queued
    }

    /** The blocks still to be looked at are as they were. */
    static ghost predicate Untouched(s: Chunks, blocks: map<nat, GCBlock>, done: set<nat>) {
      && (forall b :: b in s.blocks && b !in done ==> b in blocks && blocks[b] == s.blocks[b])
      && (forall b :: b in blocks ==> b in s.blocks)
    }

    /** What becomes of the blocks looked at: one without marks is gone, and one that remains is to be swept, unless all
        its items are marked and the pass can tell. */
    static ghost predicate Judged(s: Chunks, blocks: map<nat, GCBlock>, done: set<nat>, lazy: bool) {
      forall b :: b in done && b in s.blocks ==>
        && (b in blocks <==> !NoneMarked(s.blocks[b]))
        && (b in blocks ==> (blocks[b].needsSweeping <==> lazy || !AllMarked(s.blocks[b])))
    }

    static lemma NothingJudged(s: Chunks)
      ensures Judged(s, s.blocks, {}, false) && Judged(s, s.blocks, {}, true)
    {
    }

    static lemma StillJudged(s: Chunks, blocks: map<nat, GCBlock>, blocks': map<nat, GCBlock>, b: nat, done: set<nat>,
                             lazy: bool)
      requires Judged(s, blocks, done, lazy) && b !in done && b in s.blocks
      requires blocks' == blocks - {b} || (b in blocks' && blocks' == blocks[b := blocks'[b]])
      requires b in blocks' <==> !NoneMarked(s.blocks[b])
      requires b in blocks' ==> (blocks'[b].needsSweeping <==> lazy || !AllMarked(s.blocks[b]))
      ensures Judged(s, blocks', done + {b}, lazy)
    {
      hide NoneMarked, AllMarked;
    }

    static ghost predicate ClearIn(blocks: map<nat, GCBlock>, done: set<nat>, n: nat) {
      forall b :: b in done && b in blocks && !blocks[b].needsSweeping ==> AllClear(blocks[b], n)
    }

    static ghost predicate SweepIn(blocks: map<nat, GCBlock>, done: set<nat>) {
      forall b :: b in done && b in blocks ==> blocks[b].needsSweeping
    }

    static lemma StartFinalize(s: Chunks, n: nat)
      requires Ok(s, n) && s.sweepList == []
      ensures KeepsMarked(s, s, n, {}) && NoDup(s.all) && forall b :: b in s.all <==> b in s.blocks
      ensures forall b :: b in s.blocks ==> !s.blocks[b].needsSweeping
      ensures Untouched(s, s.blocks, {}) && ClearIn(s.blocks, {}, n) && SweepIn(s.blocks, {})
    {
      NoneToSweep(s, n);
    }

    static lemma NextBlock(s: Chunks, blocks: map<nat, GCBlock>, b: nat, done: set<nat>)
      requires Untouched(s, blocks, done) && b in s.blocks && b !in done && NoQueued(s)
      ensures b in blocks && blocks[b] == s.blocks[b]
      ensures forall i :: 0 <= i < |blocks[b].bits| ==> blocks[b].bits[i] == FREELIST || !blocks[b].bits[i].queued
    {
    }

    static lemma StillUntouched(s: Chunks, blocks: map<nat, GCBlock>, blocks': map<nat, GCBlock>, b: nat,
                                done: set<nat>, n: nat)
      requires Untouched(s, blocks, done) && b in s.blocks && b in blocks && b !in done
      requires blocks' == blocks - {b} || (b in blocks' && blocks' == blocks[b := blocks'[b]])
      ensures Untouched(s, blocks', done + {b})
      ensures ClearIn(blocks, done, n) && (b in blocks' && !blocks'[b].needsSweeping ==> AllClear(blocks'[b], n)) ==>
                ClearIn(blocks', done + {b}, n)
      ensures SweepIn(blocks, done) && (b in blocks' ==> blocks'[b].needsSweeping) ==> SweepIn(blocks', done + {b})
    {
      hide AllClear;
    }

    static lemma AllCleared(s: Chunks, blocks: map<nat, GCBlock>, done: set<nat>, n: nat)
      requires Untouched(s, blocks, done) && done == s.blocks.Keys
      ensures ClearIn(blocks, done, n) ==> forall b :: b in blocks && !blocks[b].needsSweeping ==>
                AllClear(blocks[b], n)
      ensures SweepIn(blocks, done) ==> forall b :: b in blocks ==> blocks[b].needsSweeping
    {
    }

    static lemma NextChunk(all: seq<nat>, i: nat, done: set<nat>)
      requires NoDup(all) && i < |all| && forall b :: b in done <==> b in all[..i]
      ensures all[i] !in done && all[i] in all
      ensures forall b :: b in done + {all[i]} <==> b in all[..i + 1]
    {
      assert all[..i + 1] == all[..i] + [all[i]];
    }

    static lemma AllDone(s: Chunks, n: nat, done: set<nat>)
      requires forall b :: b in done <==> b in s.blocks
      ensures done == s.blocks.Keys
    {
    }

    method FinalizeBlock(b: nat, ghost s: Chunks, ghost done: set<nat>)
      requires Valid() && m_qList == [] && b in blocks && b !in done && b in s.blocks && blocks[b] == s.blocks[b]
      requires !blocks[b].needsSweeping && KeepsMarked(s, S(), m_itemsPerBlock, done)
      requires forall i :: 0 <= i < |blocks[b].bits| ==> blocks[b].bits[i] == FREELIST || !blocks[b].bits[i].queued
      modifies `blocks, `chunks, `freeList, `sweepList, `m_totalAllocatedBytes, `occupied
      ensures Valid() && KeepsMarked(s, S(), m_itemsPerBlock, done + {b})
      ensures blocks == old(blocks) - {b} || (b in blocks && blocks == old(blocks)[b := blocks[b]])
      ensures b in blocks && !blocks[b].needsSweeping ==> AllClear(blocks[b], m_itemsPerBlock)
      ensures b in blocks <==> !old(NoneMarked(blocks[b]))
      ensures b in blocks ==> (blocks[b].needsSweeping <==> !old(AllMarked(blocks[b])))
    {
      hide Ok, Occupied, Live, KeepsMarked, AllClear, BlockOk, AllMarked, NoneMarked;
      BlockIs(S(), m_itemsPerBlock, b);
      var numMarkedItems := CountMarks(blocks[b]);
      if numMarkedItems == 0 {
        DropUnmarked(b, s, done);
      } else if numMarkedItems == m_itemsPerBlock - blocks[b].numFree {
        ClearBlock(b, s, done);
      } else {
        CondemnBlock(b, s, done);
      }
    }

    static lemma BlockIs(s: Chunks, n: nat, b: nat)
      requires Ok(s, n) && b in s.blocks && s.qList == []
      ensures BlockOk(s.blocks[b], n) && |s.blocks[b].bits| == n
      ensures forall i :: 0 <= i < n && s.blocks[b].bits[i] == FREELIST ==> i in s.blocks[b].free
    {
    }

    /** UnlinkChunk on a block of which nothing survives. */
    method DropUnmarked(b: nat, ghost s: Chunks, ghost done: set<nat>)
      requires Valid() && m_qList == [] && b in blocks && b in s.blocks && blocks[b] == s.blocks[b]
      requires !blocks[b].needsSweeping && KeepsMarked(s, S(), m_itemsPerBlock, done) && NoneMarked(blocks[b])
      modifies `blocks, `chunks, `freeList, `m_totalAllocatedBytes, `occupied
      ensures Valid() && KeepsMarked(s, S(), m_itemsPerBlock, done + {b}) && blocks == old(blocks) - {b}
    {
      hide Ok, Occupied, Live, KeepsMarked, NoneMarked;
      ghost var s1 := S();
      DropOk(s1, m_itemsPerBlock, b);
      ghost var rest := set x | x in occupied && x.blk != b;
      RecountDropped(s1, m_itemsPerBlock, b, occupied, rest);
      Bytes(m_itemSize, |occupied|, failed, m_itemsPerBlock - blocks[b].numFree);
      m_totalAllocatedBytes := m_totalAllocatedBytes - (m_itemsPerBlock - blocks[b].numFree) * m_itemSize;
      occupied := rest;
      blocks := blocks - {b};
      chunks := Without(chunks, b);
      freeList := Without(freeList, b);
      DroppedKeeps(s, s1, S(), m_itemsPerBlock, b, done);
    }

    static lemma DroppedKeeps(s: Chunks, s1: Chunks, s2: Chunks, n: nat, b: nat, done: set<nat>)
      requires KeepsMarked(s, s1, n, done) && b in s.blocks && NoneMarked(s.blocks[b])
      requires forall x :: Live(s2, n, x) <==> Live(s1, n, x) && x.blk != b
      ensures KeepsMarked(s, s2, n, done + {b})
    {
    }

    /** ClearMarks on a block: all mark bits go, and then the free items look free again. */
    method ClearMarks(g: GCBlock) returns (g': GCBlock)
      requires BlockOk(g, m_itemsPerBlock)
      requires forall i :: 0 <= i < m_itemsPerBlock && g.bits[i] == FREELIST ==> i in g.free
      ensures Remarked(g, g', m_itemsPerBlock) && AllClear(g', m_itemsPerBlock)
    {
      var bits := seq(m_itemsPerBlock, i => CLEAR);
      var k := 0;
      while k < |g.free|
        invariant 0 <= k <= |g.free| && |bits| == m_itemsPerBlock
        invariant forall i :: 0 <= i < m_itemsPerBlock ==> bits[i] == if i in g.free[..k] then FREELIST else CLEAR
      {
        assert g.free[k] in g.free && g.free[..k + 1] == g.free[..k] + [g.free[k]];
        bits := bits[g.free[k] := FREELIST];
        k := k + 1;
      }
      assert g.free[..k] == g.free;
      g' := g.(bits := bits);
    }

    method ClearBlock(b: nat, ghost s: Chunks, ghost done: set<nat>)
      requires Valid() && m_qList == [] && b in blocks && b in s.blocks && blocks[b] == s.blocks[b]
      requires !blocks[b].needsSweeping && KeepsMarked(s, S(), m_itemsPerBlock, done) && AllMarked(blocks[b])
      modifies `blocks
      ensures Valid() && KeepsMarked(s, S(), m_itemsPerBlock, done + {b})
      ensures blocks == old(blocks)[b := blocks[b]] && AllClear(blocks[b], m_itemsPerBlock) && !blocks[b].needsSweeping
    {
      hide Ok, Occupied, Live, KeepsMarked, AllMarked, AllClear, BlockOk, SameLive, SameOccupied;
      ghost var s1 := S();
      BlockIs(s1, m_itemsPerBlock, b);
      var g := ClearMarks(blocks[b]);
      RemarkOk(s1, m_itemsPerBlock, b, g);
      blocks := blocks[b := g];
      OccupiedStill(s1, S(), m_itemsPerBlock, occupied);
      ClearedKeeps(s, s1, S(), m_itemsPerBlock, b, done);
    }

    static lemma ClearedKeeps(s: Chunks, s1: Chunks, s2: Chunks, n: nat, b: nat, done: set<nat>)
      requires KeepsMarked(s, s1, n, done) && b in s.blocks && AllMarked(s.blocks[b]) && SameLive(s1, s2, n)
      ensures KeepsMarked(s, s2, n, done + {b})
    {
    }

    /** AddToSweepList. */
    method CondemnBlock(b: nat, ghost s: Chunks, ghost done: set<nat>)
      requires Valid() && m_qList == [] && b in blocks && b in s.blocks && blocks[b] == s.blocks[b]
      requires !blocks[b].needsSweeping && KeepsMarked(s, S(), m_itemsPerBlock, done)
      requires forall i :: 0 <= i < |blocks[b].bits| ==> blocks[b].bits[i] == FREELIST || !blocks[b].bits[i].queued
      modifies `blocks, `freeList, `sweepList
      ensures Valid() && KeepsMarked(s, S(), m_itemsPerBlock, done + {b})
      ensures blocks == old(blocks)[b := old(blocks)[b].(needsSweeping := true)]
    {
      hide Ok, Occupied, Live, KeepsMarked, SameOccupied;
      ghost var s1 := S();
      CondemnOk(s1, m_itemsPerBlock, b);
      CondemnedKeeps(s, s1, m_itemsPerBlock, b, done);
      blocks := blocks[b := blocks[b].(needsSweeping := true)];
      freeList := Without(freeList, b);
      sweepList := [b] + sweepList;
      OccupiedStill(s1, S(), m_itemsPerBlock, occupied);
    }

    static lemma CondemnedKeeps(s: Chunks, s1: Chunks, n: nat, b: nat, done: set<nat>)
      requires KeepsMarked(s, s1, n, done) && b in s.blocks && b in s1.blocks && s1.blocks[b] == s.blocks[b]
      requires Ok(s1, n) && s1.qList == []
      requires forall x :: Live(Condemn(s1, b), n, x) <==>
                Live(s1, n, x) && (x.blk == b ==> s1.blocks[b].bits[x.idx] != CLEAR)
      requires forall i :: 0 <= i < |s.blocks[b].bits| ==>
                s.blocks[b].bits[i] == FREELIST || !s.blocks[b].bits[i].queued
      ensures KeepsMarked(s, Condemn(s1, b), n, done + {b})
    {
      hide Ok;
      BlockIs(s1, n, b);
    }

    /** LazySweepPass: a block without marks is given back, and any other is to be swept. */
    method LazySweepPass()
      requires Valid() && Marked()
      modifies `blocks, `chunks, `freeList, `sweepList, `m_totalAllocatedBytes, `occupied
      ensures Valid() && KeepsMarked(old(S()), S(), m_itemsPerBlock, old(blocks.Keys))
      ensures forall b :: b in blocks ==> blocks[b].needsSweeping
      ensures Judged(old(S()), blocks, old(blocks.Keys), true)
    {
      hide Ok, Occupied, Live, KeepsMarked, NoDup, BlockOk, Untouched, SweepIn, Marked, NoQueued, Judged;
      ghost var s := S();
      MarkedIs();
      StartFinalize(s, m_itemsPerBlock);
      NothingJudged(s);
      ghost var done: set<nat> := {};
      var i := 0;
      var all := chunks;
      while i < |all|
        invariant 0 <= i <= |all| && m_qList == [] && Valid() && KeepsMarked(s, S(), m_itemsPerBlock, done)
        invariant forall b :: b in done <==> b in all[..i]
        invariant Untouched(s, blocks, done) && SweepIn(blocks, done) && Judged(s, blocks, done, true)
      {
        NextChunk(all, i, done);
        NextBlock(s, blocks, all[i], done);
        ghost var before := blocks;
        LazySweepBlock(all[i], s, done);
        StillUntouched(s, before, blocks, all[i], done, m_itemsPerBlock);
        StillJudged(s, before, blocks, all[i], done, true);
        done := done + {all[i]};
        i := i + 1;
      }
      assert all[..i] == all;
      AllDone(s, m_itemsPerBlock, done);
      AllCleared(s, blocks, done, m_itemsPerBlock);
    }

    method LazySweepBlock(b: nat, ghost s: Chunks, ghost done: set<nat>)
      requires Valid() && m_qList == [] && b in blocks && b !in done && b in s.blocks && blocks[b] == s.blocks[b]
      requires !blocks[b].needsSweeping && KeepsMarked(s, S(), m_itemsPerBlock, done)
      requires forall i :: 0 <= i < |blocks[b].bits| ==> blocks[b].bits[i] == FREELIST || !blocks[b].bits[i].queued
      modifies `blocks, `chunks, `freeList, `sweepList, `m_totalAllocatedBytes, `occupied
      ensures Valid() && KeepsMarked(s, S(), m_itemsPerBlock, done + {b})
      ensures blocks == old(blocks) - {b} || blocks == old(blocks)[b := old(blocks)[b].(needsSweeping := true)]
      ensures b in blocks <==> !old(NoneMarked(blocks[b]))
    {
      hide Ok, Occupied, Live, KeepsMarked, BlockOk, NoneMarked;
      var anyMarkedItems := AnyMarks(blocks[b]);
      if !anyMarkedItems {
        DropUnmarked(b, s, done);
      } else {
        CondemnBlock(b, s, done);
      }
    }

    static method AnyMarks(g: GCBlock) returns (any: bool)
      requires forall i :: 0 <= i < |g.bits| ==> g.bits[i] == FREELIST || !g.bits[i].queued
      ensures any <==> !NoneMarked(g)
    {
      var i := 0;
      while i < |g.bits|
        invariant 0 <= i <= |g.bits| && forall j :: 0 <= j < i ==> g.bits[j] == FREELIST || !g.bits[j].mark
      {
        if g.bits[i] != FREELIST && g.bits[i].mark { return true; }
        i := i + 1;
      }
      any := false;
    }

    /** Finalize: exactly what is live and marked stays live, at once, although most of it is swept later only. */
    method Finalize()
      requires Valid() && Marked()
      modifies `blocks, `chunks, `freeList, `sweepList, `m_totalAllocatedBytes, `occupied
      ensures Valid() && forall x :: Alive(x) <==> old(Alive(x)) && old(blocks)[x.blk].bits[x.idx].mark
      ensures forall b :: b in blocks && !blocks[b].needsSweeping ==> AllClear(blocks[b], m_itemsPerBlock)
      ensures Judged(old(S()), blocks, old(blocks.Keys), !containsFinalizedObjects)
    {
      hide Ok, Live, KeepsMarked, AllClear, Judged;
      ghost var s := S();
      if containsFinalizedObjects {
        FinalizationPass();
      } else {
        LazySweepPass();
      }
      MarkedLive(s, S(), m_itemsPerBlock);
    }

    static lemma MarkedLive(s: Chunks, s': Chunks, n: nat)
      requires KeepsMarked(s, s', n, s.blocks.Keys)
      ensures forall x :: Live(s, n, x) ==> x.blk in s.blocks && x.idx < |s.blocks[x.blk].bits|
      ensures forall x :: Live(s', n, x) <==> Live(s, n, x) && s.blocks[x.blk].bits[x.idx].mark
    {
    }

    /** The end of QuickListBudgetExhausted: budget for another block's worth of items. */
    method GrantBudget()
      requires Valid()
      modifies `m_qBudget, `m_qBudgetObtained
      ensures Valid() && m_qBudgetObtained == old(m_qBudgetObtained) + m_itemsPerBlock
      ensures m_qBudget == old(m_qBudget) + m_itemsPerBlock
    {
      m_qBudgetObtained := m_qBudgetObtained + m_itemsPerBlock;
      m_qBudget := m_qBudget + m_itemsPerBlock;
    }

    /** Whether an item is allocated, as a caller can tell from the header of its block. */
    predicate IsAllocated(x: Item)
      reads this
    {
      && x.blk in blocks && x.idx < |blocks[x.blk].bits| && blocks[x.blk].bits[x.idx] != FREELIST
      && (blocks[x.blk].needsSweeping ==> blocks[x.blk].bits[x.idx] != CLEAR)
    }

    lemma AllocatedIsAlive(x: Item)
      requires Valid()
      ensures IsAllocated(x) <==> Alive(x)
    {
      if x.blk in blocks { assert BlockOk(blocks[x.blk], m_itemsPerBlock); }
    }
  }
}
