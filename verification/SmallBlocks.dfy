/** The blocks of a small-object allocator as in MMgc/GCAlloc.h: every item of every block is allocated, garbage, on
    its block's free list, or on the quick list; and what each step of the allocator does to that. */
module SmallBlocks {
  import TriColour
  import Probing

  /** An item, by the block it is in and its index in there. */
  datatype Item = Item(blk: nat, idx: nat)

  /** The header of a block: the bits of its items, its free list, and whether it is to be swept. */
  datatype GCBlock = GCBlock(bits: seq<TriColour.GCBits>, free: seq<nat>, numFree: nat, needsSweeping: bool)

  /** The blocks of an allocator, the lists they are on, and the quick list. */
  datatype Chunks =
    Chunks(blocks: map<nat, GCBlock>, all: seq<nat>, freeList: seq<nat>, sweepList: seq<nat>, qList: seq<Item>)

  const FREELIST := TriColour.GCBits(true, true)
  const CLEAR := TriColour.GCBits(false, false)

  ghost predicate NoDup<T(!new)>(s: seq<T>) {
    forall i, j :: 0 <= i < j < |s| ==> s[i] != s[j]
  }

  // ----- The invariant

  ghost predicate BlockOk(g: GCBlock, n: nat) {
    && |g.bits| == n && g.numFree == |g.free| && NoDup(g.free)
    && forall i :: i in g.free ==> i < n && g.bits[i] == FREELIST
  }

  ghost predicate BlocksOk(s: Chunks, n: nat) {
    forall b :: b in s.blocks ==> BlockOk(s.blocks[b], n)
  }

  /** A block is in one list at most, by what is to be done with it. */
  ghost predicate ListsOk(s: Chunks) {
    && NoDup(s.all) && NoDup(s.freeList) && NoDup(s.sweepList)
    && (forall b :: b in s.all <==> b in s.blocks)
    && (forall b :: b in s.freeList <==> b in s.blocks && !s.blocks[b].needsSweeping && s.blocks[b].numFree > 0)
    && (forall b :: b in s.sweepList <==> b in s.blocks && s.blocks[b].needsSweeping)
  }

  /** Items on the quick list are free, and neither on their block's free list nor in a block to be swept. */
  ghost predicate OnQuickList(s: Chunks, n: nat, x: Item) {
    && x.blk in s.blocks && x.idx < n == |s.blocks[x.blk].bits|
    && s.blocks[x.blk].bits[x.idx] == FREELIST && x.idx !in s.blocks[x.blk].free
    && !s.blocks[x.blk].needsSweeping
  }

  ghost predicate QuickOk(s: Chunks, n: nat) {
    NoDup(s.qList) && forall x :: x in s.qList ==> OnQuickList(s, n, x)
  }

  /** An item that looks free is on one of the lists. */
  ghost predicate FreeOk(s: Chunks, n: nat) {
    forall b, i :: b in s.blocks && 0 <= i < n == |s.blocks[b].bits| && s.blocks[b].bits[i] == FREELIST ==>
      i in s.blocks[b].free || Item(b, i) in s.qList
  }

  ghost predicate Ok(s: Chunks, n: nat) {
    BlocksOk(s, n) && ListsOk(s) && QuickOk(s, n) && FreeOk(s, n)
  }

  // ----- What the bits mean

  /** The item is not on a free list; in a block to be swept it may still be garbage. */
  ghost predicate Occupied(s: Chunks, n: nat, x: Item) {
    x.blk in s.blocks && x.idx < n == |s.blocks[x.blk].bits| && s.blocks[x.blk].bits[x.idx] != FREELIST
  }

  /** The item is allocated: in a block to be swept, it must have been marked as well. */
  ghost predicate Live(s: Chunks, n: nat, x: Item) {
    Occupied(s, n, x) && (s.blocks[x.blk].needsSweeping ==> s.blocks[x.blk].bits[x.idx] != CLEAR)
  }

  /** The live items stay the same, but for x. */
  ghost predicate SameLiveBut(s: Chunks, s': Chunks, n: nat, x: Item) {
    forall y :: y != x ==> (Live(s', n, y) <==> Live(s, n, y))
  }

  ghost predicate SameLive(s: Chunks, s': Chunks, n: nat) {
    forall y :: Live(s', n, y) <==> Live(s, n, y)
  }

  /** The occupied items stay the same, but for x. */
  ghost predicate SameOccupiedBut(s: Chunks, s': Chunks, n: nat, x: Item) {
    forall y :: y != x ==> (Occupied(s', n, y) <==> Occupied(s, n, y))
  }

  ghost predicate SameOccupied(s: Chunks, s': Chunks, n: nat) {
    forall y :: Occupied(s', n, y) <==> Occupied(s, n, y)
  }

  // ----- Sequences without duplicates

  lemma NoDupCons<T(!new)>(x: T, s: seq<T>)
    requires NoDup(s)
    ensures NoDup([x] + s) <==> x !in s
    ensures forall y :: y in [x] + s <==> y == x || y in s
  {
    if x in s {
      var i :| 0 <= i < |s| && s[i] == x;
      assert ([x] + s)[0] == ([x] + s)[i + 1];
    }
  }

  lemma NoDupTail<T(!new)>(s: seq<T>)
    requires NoDup(s) && s != []
    ensures NoDup(s[1..]) && s[0] !in s[1..]
    ensures forall y :: y in s <==> y == s[0] || y in s[1..]
  {
    assert s == [s[0]] + s[1..];
  }

  function Without(s: seq<nat>, x: nat): seq<nat> {
    if s == [] then [] else if s[0] == x then Without(s[1..], x) else [s[0]] + Without(s[1..], x)
  }

  lemma {:induction false} WithoutIs(s: seq<nat>, x: nat)
    requires NoDup(s)
    ensures NoDup(Without(s, x)) && forall y :: y in Without(s, x) <==> y in s && y != x
    ensures |Without(s, x)| == |s| - if x in s then 1 else 0
  {
    if s != [] {
      NoDupTail(s);
      WithoutIs(s[1..], x);
      if s[0] != x { NoDupCons(s[0], Without(s[1..], x)); }
    }
  }

  // ----- Allocation from the quick list

  ghost function Pop(s: Chunks): Chunks
    requires s.qList != [] && s.qList[0].blk in s.blocks && s.qList[0].idx < |s.blocks[s.qList[0].blk].bits|
  {
    var x := s.qList[0];
    var g := s.blocks[x.blk];
    s.(blocks := s.blocks[x.blk := g.(bits := g.bits[x.idx := CLEAR])], qList := s.qList[1..])
  }

  lemma PopOk(s: Chunks, n: nat)
    requires Ok(s, n) && s.qList != []
    ensures var x := s.qList[0];
      && x.blk in s.blocks && x.idx < |s.blocks[x.blk].bits| && Ok(Pop(s), n)
      && !Occupied(s, n, x) && Occupied(Pop(s), n, x) && Live(Pop(s), n, x)
      && SameLiveBut(s, Pop(s), n, x) && SameOccupiedBut(s, Pop(s), n, x)
  {
    assert OnQuickList(s, n, s.qList[0]);
    PopQuick(s, n);
    PopBlocks(s, n);
    PopLists(s);
  }

  lemma PopQuick(s: Chunks, n: nat)
    requires QuickOk(s, n) && FreeOk(s, n) && s.qList != [] && OnQuickList(s, n, s.qList[0])
    ensures QuickOk(Pop(s), n) && FreeOk(Pop(s), n)
  {
    NoDupTail(s.qList);
    var s' := Pop(s);
    forall y | y in s'.qList ensures OnQuickList(s', n, y) { assert OnQuickList(s, n, y); }
  }

  lemma PopBlocks(s: Chunks, n: nat)
    requires BlocksOk(s, n) && s.qList != [] && OnQuickList(s, n, s.qList[0])
    ensures BlocksOk(Pop(s), n)
  {
    forall b | b in s.blocks ensures BlockOk(Pop(s).blocks[b], n) { assert BlockOk(s.blocks[b], n); }
  }

  lemma PopLists(s: Chunks)
    requires ListsOk(s) && s.qList != [] && s.qList[0].blk in s.blocks
    requires s.qList[0].idx < |s.blocks[s.qList[0].blk].bits|
    ensures ListsOk(Pop(s))
  {
  }

  // ----- Freeing

  /** The item goes to the quick list. */
  ghost function PushQuick(s: Chunks, x: Item): Chunks
    requires x.blk in s.blocks && x.idx < |s.blocks[x.blk].bits|
  {
    var g := s.blocks[x.blk];
    s.(blocks := s.blocks[x.blk := g.(bits := g.bits[x.idx := FREELIST])], qList := [x] + s.qList)
  }

  lemma PushQuickOk(s: Chunks, n: nat, x: Item)
    requires Ok(s, n) && Occupied(s, n, x) && !s.blocks[x.blk].needsSweeping
    ensures Ok(PushQuick(s, x), n) && !Occupied(PushQuick(s, x), n, x)
    ensures SameLiveBut(s, PushQuick(s, x), n, x) && SameOccupiedBut(s, PushQuick(s, x), n, x)
  {
    PushedQuick(s, n, x);
    PushedBlocks(s, n, x);
    PushedLists(s, x);
  }

  lemma PushedQuick(s: Chunks, n: nat, x: Item)
    requires BlocksOk(s, n) && QuickOk(s, n) && FreeOk(s, n) && Occupied(s, n, x) && !s.blocks[x.blk].needsSweeping
    ensures QuickOk(PushQuick(s, x), n) && FreeOk(PushQuick(s, x), n)
  {
    var s' := PushQuick(s, x);
    assert x in s.qList ==> OnQuickList(s, n, x);
    NoDupCons(x, s.qList);
    assert BlockOk(s.blocks[x.blk], n);
    forall y | y in s'.qList ensures OnQuickList(s', n, y) { assert y == x || OnQuickList(s, n, y); }
  }

  lemma PushedBlocks(s: Chunks, n: nat, x: Item)
    requires BlocksOk(s, n) && Occupied(s, n, x)
    ensures BlocksOk(PushQuick(s, x), n)
  {
    forall b | b in s.blocks ensures BlockOk(PushQuick(s, x).blocks[b], n) { assert BlockOk(s.blocks[b], n); }
  }

  lemma PushedLists(s: Chunks, x: Item)
    requires ListsOk(s) && x.blk in s.blocks && x.idx < |s.blocks[x.blk].bits|
    ensures ListsOk(PushQuick(s, x))
  {
  }

  /** The item goes to the free list of its block, which is about to be swept. */
  ghost function PushFree(s: Chunks, x: Item): Chunks
    requires x.blk in s.blocks && x.idx < |s.blocks[x.blk].bits|
  {
    var g := s.blocks[x.blk];
    var g' := g.(bits := g.bits[x.idx := FREELIST], free := [x.idx] + g.free, numFree := g.numFree + 1);
    s.(blocks := s.blocks[x.blk := g'])
  }

  lemma PushFreeOk(s: Chunks, n: nat, x: Item)
    requires Ok(s, n) && Occupied(s, n, x) && s.blocks[x.blk].needsSweeping
    ensures Ok(PushFree(s, x), n) && !Occupied(PushFree(s, x), n, x)
    ensures SameLiveBut(s, PushFree(s, x), n, x) && SameOccupiedBut(s, PushFree(s, x), n, x)
  {
    var s' := PushFree(s, x);
    var g := s.blocks[x.blk];
    assert BlockOk(g, n);
    NoDupCons(x.idx, g.free);
    forall b | b in s'.blocks ensures BlockOk(s'.blocks[b], n) { assert BlockOk(s.blocks[b], n); }
    PushFreeLists(s, x);
    PushFreeQuick(s, n, x);
  }

  lemma PushFreeLists(s: Chunks, x: Item)
    requires ListsOk(s) && x.blk in s.blocks && x.idx < |s.blocks[x.blk].bits| && s.blocks[x.blk].needsSweeping
    ensures ListsOk(PushFree(s, x))
  {
  }

  lemma PushFreeQuick(s: Chunks, n: nat, x: Item)
    requires QuickOk(s, n) && FreeOk(s, n) && Occupied(s, n, x) && s.blocks[x.blk].needsSweeping
    ensures QuickOk(PushFree(s, x), n) && FreeOk(PushFree(s, x), n)
  {
    var s' := PushFree(s, x);
    forall y | y in s'.qList ensures OnQuickList(s', n, y) { assert OnQuickList(s, n, y); }
    forall b, i | b in s'.blocks && 0 <= i < n == |s'.blocks[b].bits| && s'.blocks[b].bits[i] == FREELIST
      ensures i in s'.blocks[b].free || Item(b, i) in s'.qList
    {
      if b != x.blk || i != x.idx { assert s.blocks[b].bits[i] == FREELIST; }
    }
  }

  // ----- Filling and coalescing the quick list

  ghost function ItemsOf(b: nat, free: seq<nat>): (q: seq<Item>)
    ensures |q| == |free| && forall k :: 0 <= k < |free| ==> q[k] == Item(b, free[k])
  {
    seq(|free|, k requires 0 <= k < |free| => Item(b, free[k]))
  }

  /** The whole free list of the first block becomes the quick list. */
  ghost function Fill(s: Chunks): Chunks
    requires s.freeList != [] && s.freeList[0] in s.blocks
  {
    var b := s.freeList[0];
    s.(qList := ItemsOf(b, s.blocks[b].free), freeList := s.freeList[1..],
       blocks := s.blocks[b := s.blocks[b].(free := [], numFree := 0)])
  }

  lemma FillOk(s: Chunks, n: nat)
    requires Ok(s, n) && s.qList == [] && s.freeList != []
    ensures s.freeList[0] in s.blocks && s.freeList[0] in s.freeList
    ensures Ok(Fill(s), n) && SameLive(s, Fill(s), n) && SameOccupied(s, Fill(s), n)
    ensures |Fill(s).qList| == s.blocks[s.freeList[0]].numFree > 0 && s.blocks[s.freeList[0]].numFree <= n
  {
    var b := s.freeList[0];
    assert b in s.freeList;
    assert BlockOk(s.blocks[b], n);
    NoDupBounded(s.blocks[b].free, n);
    FillLists(s);
    FillQuick(s, n);
    forall c | c in s.blocks ensures BlockOk(Fill(s).blocks[c], n) { assert BlockOk(s.blocks[c], n); }
  }

  lemma FillLists(s: Chunks)
    requires ListsOk(s) && s.freeList != [] && s.freeList[0] in s.blocks && s.freeList[0] in s.freeList
    ensures ListsOk(Fill(s))
  {
    NoDupTail(s.freeList);
  }

  lemma FillQuick(s: Chunks, n: nat)
    requires BlocksOk(s, n) && FreeOk(s, n) && s.qList == [] && s.freeList != [] && s.freeList[0] in s.blocks
    requires !s.blocks[s.freeList[0]].needsSweeping
    ensures QuickOk(Fill(s), n) && FreeOk(Fill(s), n)
  {
    var b, s' := s.freeList[0], Fill(s);
    assert BlockOk(s.blocks[b], n);
    forall y | y in s'.qList ensures OnQuickList(s', n, y) {
      var k :| 0 <= k < |s'.qList| && s'.qList[k] == y;
      assert s.blocks[b].free[k] in s.blocks[b].free;
    }
    forall c, i | c in s'.blocks && 0 <= i < n == |s'.blocks[c].bits| && s'.blocks[c].bits[i] == FREELIST
      ensures i in s'.blocks[c].free || Item(c, i) in s'.qList
    {
      assert i in s.blocks[c].free;
      if c == b {
        var k :| 0 <= k < |s.blocks[b].free| && s.blocks[b].free[k] == i;
        assert s'.qList[k] == Item(c, i);
      }
    }
  }

  lemma {:induction false} NoDupBounded(s: seq<nat>, n: nat)
    requires NoDup(s) && forall i :: i in s ==> i < n
    ensures |s| <= n
    decreases n
  {
    if s != [] {
      assert s[0] in s;
      WithoutIs(s, n - 1);
      NoDupBounded(Without(s, n - 1), n - 1);
    }
  }

  /** The first item of the quick list goes back to its block, which may have had no free item. */
  ghost function Coalesce(s: Chunks): Chunks
    requires s.qList != [] && s.qList[0].blk in s.blocks
  {
    var x := s.qList[0];
    var g := s.blocks[x.blk];
    s.(qList := s.qList[1..],
       freeList := if g.numFree == 0 then [x.blk] + s.freeList else s.freeList,
       blocks := s.blocks[x.blk := g.(free := [x.idx] + g.free, numFree := g.numFree + 1)])
  }

  lemma CoalesceOk(s: Chunks, n: nat)
    requires Ok(s, n) && s.qList != []
    ensures s.qList[0].blk in s.blocks
    ensures Ok(Coalesce(s), n) && SameLive(s, Coalesce(s), n) && SameOccupied(s, Coalesce(s), n)
  {
    var x := s.qList[0];
    assert OnQuickList(s, n, x);
    CoalesceLists(s);
    CoalesceQuick(s, n);
    CoalesceBlocks(s, n);
  }

  lemma CoalesceBlocks(s: Chunks, n: nat)
    requires BlocksOk(s, n) && s.qList != [] && OnQuickList(s, n, s.qList[0])
    ensures BlocksOk(Coalesce(s), n)
  {
    var x := s.qList[0];
    assert BlockOk(s.blocks[x.blk], n);
    NoDupCons(x.idx, s.blocks[x.blk].free);
    forall b | b in s.blocks ensures BlockOk(Coalesce(s).blocks[b], n) { assert BlockOk(s.blocks[b], n); }
  }

  lemma CoalesceLists(s: Chunks)
    requires ListsOk(s) && s.qList != [] && s.qList[0].blk in s.blocks && !s.blocks[s.qList[0].blk].needsSweeping
    ensures ListsOk(Coalesce(s))
  {
    NoDupCons(s.qList[0].blk, s.freeList);
  }

  lemma CoalesceQuick(s: Chunks, n: nat)
    requires QuickOk(s, n) && FreeOk(s, n) && s.qList != [] && OnQuickList(s, n, s.qList[0])
    ensures QuickOk(Coalesce(s), n) && FreeOk(Coalesce(s), n)
  {
    var x, s' := s.qList[0], Coalesce(s);
    NoDupTail(s.qList);
    forall y | y in s'.qList ensures OnQuickList(s', n, y) { assert OnQuickList(s, n, y); }
    forall b, i | b in s'.blocks && 0 <= i < n == |s'.blocks[b].bits| && s'.blocks[b].bits[i] == FREELIST
      ensures i in s'.blocks[b].free || Item(b, i) in s'.qList
    {
      assert i in s.blocks[b].free || Item(b, i) in s.qList;
    }
  }

  // ----- Sweeping

  /** What sweeping makes of a block: marked and queued items stay, unmarked ones become free, and no mark is left. */
  ghost predicate Swept(g: GCBlock, g': GCBlock, n: nat) {
    && |g.bits| == n && BlockOk(g', n) && !g'.needsSweeping
    && (forall i :: 0 <= i < n ==>
        g'.bits[i] == if g.bits[i] == FREELIST || g.bits[i] == CLEAR then FREELIST else CLEAR)
    && (forall i :: 0 <= i < n && g'.bits[i] == FREELIST ==> i in g'.free)
  }

  ghost function Sweep(s: Chunks, b: nat, g': GCBlock): Chunks {
    s.(blocks := s.blocks[b := g'], sweepList := Without(s.sweepList, b),
       freeList := if g'.numFree > 0 then [b] + s.freeList else s.freeList)
  }

  lemma SweepOk(s: Chunks, n: nat, b: nat, g': GCBlock)
    requires Ok(s, n) && b in s.blocks && s.blocks[b].needsSweeping && Swept(s.blocks[b], g', n)
    ensures Ok(Sweep(s, b, g'), n) && SameLive(s, Sweep(s, b, g'), n)
    ensures forall x :: Occupied(Sweep(s, b, g'), n, x) <==> if x.blk == b then Live(s, n, x) else Occupied(s, n, x)
  {
    SweepLists(s, b, g');
    SweepQuick(s, n, b, g');
    SweepBlocks(s, n, b, g');
    SweepLive(s, n, b, g');
  }

  lemma SweepBlocks(s: Chunks, n: nat, b: nat, g': GCBlock)
    requires BlocksOk(s, n) && b in s.blocks && BlockOk(g', n)
    ensures BlocksOk(Sweep(s, b, g'), n)
  {
    forall c | c in s.blocks ensures BlockOk(Sweep(s, b, g').blocks[c], n) { assert BlockOk(s.blocks[c], n); }
  }

  lemma SweepLists(s: Chunks, b: nat, g': GCBlock)
    requires ListsOk(s) && b in s.blocks && s.blocks[b].needsSweeping && !g'.needsSweeping
    ensures ListsOk(Sweep(s, b, g'))
  {
    WithoutIs(s.sweepList, b);
    NoDupCons(b, s.freeList);
  }

  lemma SweepQuick(s: Chunks, n: nat, b: nat, g': GCBlock)
    requires QuickOk(s, n) && FreeOk(s, n) && b in s.blocks && s.blocks[b].needsSweeping && Swept(s.blocks[b], g', n)
    ensures QuickOk(Sweep(s, b, g'), n) && FreeOk(Sweep(s, b, g'), n)
  {
    var s' := Sweep(s, b, g');
    forall y | y in s'.qList ensures OnQuickList(s', n, y) { assert OnQuickList(s, n, y); }
    forall c, i | c in s'.blocks && 0 <= i < n == |s'.blocks[c].bits| && s'.blocks[c].bits[i] == FREELIST
      ensures i in s'.blocks[c].free || Item(c, i) in s'.qList
    {
      if c != b { assert i in s.blocks[c].free || Item(c, i) in s.qList; }
    }
  }

  lemma SweepLive(s: Chunks, n: nat, b: nat, g': GCBlock)
    requires b in s.blocks && s.blocks[b].needsSweeping && Swept(s.blocks[b], g', n)
    ensures SameLive(s, Sweep(s, b, g'), n)
    ensures forall x :: Occupied(Sweep(s, b, g'), n, x) <==> if x.blk == b then Live(s, n, x) else Occupied(s, n, x)
  {
  }

  // ----- Blocks come and go

  /** A block goes back to the heap. */
  ghost function Drop(s: Chunks, b: nat): Chunks {
    s.(blocks := s.blocks - {b}, all := Without(s.all, b), freeList := Without(s.freeList, b))
  }

  lemma DropOk(s: Chunks, n: nat, b: nat)
    requires Ok(s, n) && b in s.blocks && !s.blocks[b].needsSweeping && forall x :: x in s.qList ==> x.blk != b
    ensures Ok(Drop(s, b), n)
    ensures forall x :: Live(Drop(s, b), n, x) <==> Live(s, n, x) && x.blk != b
    ensures forall x :: Occupied(Drop(s, b), n, x) <==> Occupied(s, n, x) && x.blk != b
  {
    DropLists(s, b);
    DropQuick(s, n, b);
    forall c | c in s.blocks && c != b ensures BlockOk(Drop(s, b).blocks[c], n) { assert BlockOk(s.blocks[c], n); }
  }

  lemma DropLists(s: Chunks, b: nat)
    requires ListsOk(s) && b in s.blocks && !s.blocks[b].needsSweeping
    ensures ListsOk(Drop(s, b))
  {
    WithoutIs(s.all, b);
    WithoutIs(s.freeList, b);
  }

  lemma DropQuick(s: Chunks, n: nat, b: nat)
    requires QuickOk(s, n) && FreeOk(s, n) && b in s.blocks && forall x :: x in s.qList ==> x.blk != b
    ensures QuickOk(Drop(s, b), n) && FreeOk(Drop(s, b), n)
  {
    var s' := Drop(s, b);
    forall y | y in s'.qList ensures OnQuickList(s', n, y) { assert OnQuickList(s, n, y); }
    forall c, i | c in s'.blocks && 0 <= i < n == |s'.blocks[c].bits| && s'.blocks[c].bits[i] == FREELIST
      ensures i in s'.blocks[c].free || Item(c, i) in s'.qList
    {
      assert s.blocks[c].bits[i] == FREELIST;
    }
  }

  ghost predicate NewBlock(g: GCBlock, n: nat) {
    && BlockOk(g, n) && !g.needsSweeping && g.numFree == n
    && forall i :: 0 <= i < n ==> g.bits[i] == FREELIST && i in g.free
  }

  /** A new block, all items of which are free. */
  ghost function Create(s: Chunks, b: nat, g: GCBlock): Chunks {
    s.(blocks := s.blocks[b := g], all := s.all + [b], freeList := [b] + s.freeList)
  }

  lemma CreateOk(s: Chunks, n: nat, b: nat, g: GCBlock)
    requires Ok(s, n) && b !in s.blocks && NewBlock(g, n) && n > 0
    ensures Ok(Create(s, b, g), n) && SameLive(s, Create(s, b, g), n) && SameOccupied(s, Create(s, b, g), n)
  {
    var s' := Create(s, b, g);
    CreateLists(s, b, g);
    forall y | y in s'.qList ensures OnQuickList(s', n, y) { assert OnQuickList(s, n, y); }
    forall c | c in s'.blocks ensures BlockOk(s'.blocks[c], n) { assert c == b || BlockOk(s.blocks[c], n); }
    forall c, i | c in s'.blocks && 0 <= i < n == |s'.blocks[c].bits| && s'.blocks[c].bits[i] == FREELIST
      ensures i in s'.blocks[c].free || Item(c, i) in s'.qList
    {
      if c != b { assert s.blocks[c].bits[i] == FREELIST; }
    }
  }

  lemma CreateLists(s: Chunks, b: nat, g: GCBlock)
    requires ListsOk(s) && b !in s.blocks && !g.needsSweeping && g.numFree > 0
    ensures ListsOk(Create(s, b, g))
  {
    NoDupCons(b, s.freeList);
  }

  // ----- Finalization

  /** The block is to be swept later: from now on its unmarked items are garbage. */
  ghost function Condemn(s: Chunks, b: nat): Chunks
    requires b in s.blocks
  {
    s.(blocks := s.blocks[b := s.blocks[b].(needsSweeping := true)], freeList := Without(s.freeList, b),
       sweepList := [b] + s.sweepList)
  }

  lemma CondemnOk(s: Chunks, n: nat, b: nat)
    requires Ok(s, n) && b in s.blocks && !s.blocks[b].needsSweeping && forall x :: x in s.qList ==> x.blk != b
    ensures Ok(Condemn(s, b), n) && SameOccupied(s, Condemn(s, b), n)
    ensures forall x :: Live(Condemn(s, b), n, x) <==>
              Live(s, n, x) && (x.blk == b ==> s.blocks[b].bits[x.idx] != CLEAR)
  {
    CondemnLists(s, b);
    CondemnQuick(s, n, b);
    forall c | c in s.blocks ensures BlockOk(Condemn(s, b).blocks[c], n) { assert BlockOk(s.blocks[c], n); }
  }

  lemma CondemnLists(s: Chunks, b: nat)
    requires ListsOk(s) && b in s.blocks && !s.blocks[b].needsSweeping
    ensures ListsOk(Condemn(s, b))
  {
    WithoutIs(s.freeList, b);
    NoDupCons(b, s.sweepList);
  }

  lemma CondemnQuick(s: Chunks, n: nat, b: nat)
    requires QuickOk(s, n) && FreeOk(s, n) && b in s.blocks && forall x :: x in s.qList ==> x.blk != b
    ensures QuickOk(Condemn(s, b), n) && FreeOk(Condemn(s, b), n)
  {
    var s' := Condemn(s, b);
    forall y | y in s'.qList ensures OnQuickList(s', n, y) { assert OnQuickList(s, n, y); }
    forall c, i | c in s'.blocks && 0 <= i < n == |s'.blocks[c].bits| && s'.blocks[c].bits[i] == FREELIST
      ensures i in s'.blocks[c].free || Item(c, i) in s'.qList
    {
      assert s.blocks[c].bits[i] == FREELIST;
    }
  }

  // ----- Marks

  /** The bits of the items of one block change, but not which of them look free. */
  ghost predicate Remarked(g: GCBlock, g': GCBlock, n: nat) {
    && |g.bits| == |g'.bits| == n && g'.free == g.free && g'.numFree == g.numFree && g'.needsSweeping == g.needsSweeping
    && forall i :: 0 <= i < n ==> (g.bits[i] == FREELIST <==> g'.bits[i] == FREELIST)
  }

  lemma RemarkOk(s: Chunks, n: nat, b: nat, g': GCBlock)
    requires Ok(s, n) && b in s.blocks && Remarked(s.blocks[b], g', n) && !g'.needsSweeping
    ensures var s' := s.(blocks := s.blocks[b := g']); Ok(s', n) && SameLive(s, s', n) && SameOccupied(s, s', n)
  {
    var s' := s.(blocks := s.blocks[b := g']);
    forall y | y in s'.qList ensures OnQuickList(s', n, y) { assert OnQuickList(s, n, y); }
    forall c | c in s'.blocks ensures BlockOk(s'.blocks[c], n) { assert BlockOk(s.blocks[c], n); }
    RemarkLists(s, b, g');
    forall c, i | c in s'.blocks && 0 <= i < n == |s'.blocks[c].bits| && s'.blocks[c].bits[i] == FREELIST
      ensures i in s'.blocks[c].free || Item(c, i) in s'.qList
    {
      assert s.blocks[c].bits[i] == FREELIST;
    }
  }

  lemma RemarkLists(s: Chunks, b: nat, g': GCBlock)
    requires ListsOk(s) && b in s.blocks && g'.needsSweeping == s.blocks[b].needsSweeping
    requires g'.numFree == s.blocks[b].numFree
    ensures ListsOk(s.(blocks := s.blocks[b := g']))
  {
  }

  // ----- Counting

  /** What GetAllocStats adds up over the blocks. */
  ghost function InUse(blocks: map<nat, GCBlock>, all: seq<nat>, n: nat): int {
    if all == [] then 0
    else InUse(blocks, all[..|all| - 1], n)
         + (if all[|all| - 1] in blocks then n - blocks[all[|all| - 1]].numFree else 0)
  }

  ghost function ItemSet(b: nat, a: set<nat>): (r: set<Item>)
    ensures forall x :: x in r <==> x.blk == b && x.idx in a
  {
    set i | i in a :: Item(b, i)
  }

  lemma {:induction false} ItemSetSize(b: nat, a: set<nat>)
    ensures |ItemSet(b, a)| == |a|
  {
    if a == {} {
      assert ItemSet(b, a) == {};
    } else {
      var i :| i in a;
      ItemSetSize(b, a - {i});
      assert ItemSet(b, a) == ItemSet(b, a - {i}) + {Item(b, i)};
    }
  }

  ghost function Elements<T(!new)>(s: seq<T>): set<T> {
    set x | x in s
  }

  lemma {:induction false} ElementsSize<T(!new)>(s: seq<T>)
    requires NoDup(s)
    ensures |Elements(s)| == |s|
  {
    if s == [] {
      assert Elements(s) == {};
    } else {
      NoDupTail(s);
      ElementsSize(s[1..]);
      assert Elements(s) == Elements(s[1..]) + {s[0]};
    }
  }

  /** The items of a block that are not on its free list. */
  ghost function NotFree(b: nat, g: GCBlock, n: nat): set<Item> {
    ItemSet(b, Probing.Below(n) - Elements(g.free))
  }

  lemma NotFreeSize(b: nat, g: GCBlock, n: nat)
    requires BlockOk(g, n)
    ensures |NotFree(b, g, n)| == n - g.numFree
    ensures forall x :: x in NotFree(b, g, n) <==> x.blk == b && x.idx < n && x.idx !in g.free
  {
    Probing.BelowSize(n);
    ElementsSize(g.free);
    ItemSetSize(b, Probing.Below(n) - Elements(g.free));
    assert Elements(g.free) <= Probing.Below(n);
  }

  /** The items of some blocks that are not on their free lists, and how many these are. */
  lemma {:induction false} NotFreeItems(s: Chunks, n: nat, all: seq<nat>) returns (r: set<Item>)
    requires BlocksOk(s, n) && NoDup(all) && forall b :: b in all ==> b in s.blocks
    ensures |r| == InUse(s.blocks, all, n)
    ensures forall x :: x in r <==> x.blk in all && x.blk in s.blocks && x.idx < n && x.idx !in s.blocks[x.blk].free
  {
    if all == [] {
      r := {};
    } else {
      var last, front := all[|all| - 1], all[..|all| - 1];
      assert all == front + [last];
      var q := NotFreeItems(s, n, front);
      assert BlockOk(s.blocks[last], n);
      NotFreeSize(last, s.blocks[last], n);
      var p := NotFree(last, s.blocks[last], n);
      assert last !in front;
      assert q * p == {};
      r := q + p;
    }
  }

  /** The items occupied are as many as GetAllocStats says: those not free in their blocks, less the quick list. */
  lemma InUseIsOccupied(s: Chunks, n: nat, occupied: set<Item>)
    requires Ok(s, n) && forall x :: x in occupied <==> Occupied(s, n, x)
    ensures InUse(s.blocks, s.all, n) - |s.qList| == |occupied|
  {
    var r := NotFreeItems(s, n, s.all);
    var q := Elements(s.qList);
    ElementsSize(s.qList);
    forall x | x in q ensures x !in occupied && x in r { assert OnQuickList(s, n, x); }
    forall x | x in occupied ensures x in r { OccupiedNotFree(s, n, x); }
    forall x | x in r && x !in occupied ensures x in q { NotFreeNotOccupied(s, n, x); }
    assert r == occupied + q && occupied * q == {};
  }

  lemma OccupiedNotFree(s: Chunks, n: nat, x: Item)
    requires BlocksOk(s, n) && Occupied(s, n, x)
    ensures x.idx !in s.blocks[x.blk].free
  {
    assert BlockOk(s.blocks[x.blk], n);
  }

  lemma NotFreeNotOccupied(s: Chunks, n: nat, x: Item)
    requires BlocksOk(s, n) && FreeOk(s, n) && x.blk in s.blocks && x.idx < n && x.idx !in s.blocks[x.blk].free
    requires !Occupied(s, n, x)
    ensures x in s.qList
  {
    assert BlockOk(s.blocks[x.blk], n);
    assert Item(x.blk, x.idx) == x;
  }

  lemma WithoutAbsent(s: seq<nat>, x: nat)
    requires x !in s
    ensures Without(s, x) == s
  {
    if s != [] { WithoutAbsent(s[1..], x); }
  }

  /** In a block with no item on the quick list, what is not on its free list is occupied. */
  lemma BlockOccupied(s: Chunks, n: nat, b: nat)
    requires Ok(s, n) && b in s.blocks && forall x :: x in s.qList ==> x.blk != b
    ensures BlockOk(s.blocks[b], n)
    ensures forall x :: x in NotFree(b, s.blocks[b], n) <==> x.blk == b && Occupied(s, n, x)
    ensures |NotFree(b, s.blocks[b], n)| == n - s.blocks[b].numFree
  {
    assert BlockOk(s.blocks[b], n);
    NotFreeSize(b, s.blocks[b], n);
    forall x: Item ensures x in NotFree(b, s.blocks[b], n) <==> x.blk == b && Occupied(s, n, x) {
      if x in NotFree(b, s.blocks[b], n) && !Occupied(s, n, x) { NotFreeNotOccupied(s, n, x); }
    }
  }

  /** How many items are occupied after one block changed. */
  lemma Recount(s: Chunks, s': Chunks, n: nat, b: nat, occupied: set<Item>, occupied': set<Item>)
    requires Ok(s, n) && Ok(s', n) && b in s.blocks && b in s'.blocks
    requires forall x :: x in s.qList || x in s'.qList ==> x.blk != b
    requires forall x :: x in occupied <==> Occupied(s, n, x)
    requires forall x :: x in occupied' <==> Occupied(s', n, x)
    requires forall x: Item :: x.blk != b ==> (Occupied(s', n, x) <==> Occupied(s, n, x))
    ensures |occupied'| == |occupied| - (s'.blocks[b].numFree - s.blocks[b].numFree)
  {
    hide Ok, Occupied;
    BlockOccupied(s, n, b);
    BlockOccupied(s', n, b);
    var p, p' := NotFree(b, s.blocks[b], n), NotFree(b, s'.blocks[b], n);
    assert occupied == (occupied - p) + p && (occupied - p) * p == {};
    assert occupied' == (occupied - p) + p' && (occupied - p) * p' == {};
  }

  lemma RecountDropped(s: Chunks, n: nat, b: nat, occupied: set<Item>, occupied': set<Item>)
    requires Ok(s, n) && b in s.blocks && forall x :: x in s.qList ==> x.blk != b
    requires forall x :: x in occupied <==> Occupied(s, n, x)
    requires forall x :: x in occupied' <==> x in occupied && x.blk != b
    ensures |occupied'| == |occupied| - (n - s.blocks[b].numFree)
  {
    hide Ok, Occupied;
    BlockOccupied(s, n, b);
    var p := NotFree(b, s.blocks[b], n);
    assert occupied == occupied' + p && occupied' * p == {};
  }
}
