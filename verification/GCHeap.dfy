/** The page-block manager of MMgc/GCHeap.cpp: allocation with alignment, coalescing, recommitting, freeing and
    decommitting, on a boundary-tag array and segregated free lists. */
module GCHeap {
  import opened Basics
  import opened HeapBlocks
  import opened FreeLists
  import opened HeapState
  import opened HeapPages
  import opened HeapGrowth
  import opened HeapRegions
  import opened HeapRemoval
  import Probing

  /** How many pages to skip from an address to a multiple of the alignment. */
  function AlignmentSlop(baseAddr: nat, alignment: nat): nat
    requires alignment > 0
  {
    (alignment - baseAddr % alignment) % alignment
  }

  lemma SlopAligns(a: nat, alignment: nat)
    requires alignment > 0
    ensures AlignmentSlop(a, alignment) < alignment && (a + AlignmentSlop(a, alignment)) % alignment == 0
  {
    var q := a / alignment;
    assert a == q * alignment + a % alignment;
    if a % alignment == 0 {
      assert AlignmentSlop(a, alignment) == 0;
    } else {
      assert a + AlignmentSlop(a, alignment) == (q + 1) * alignment;
      Probing.ModMultiple(0, q + 1, alignment);
    }
  }

  lemma SmallMultiple(y: nat, m: nat)
    requires 0 < m && y < 2 * m && y % m == 0
    ensures y == 0 || y == m
  {
    if 0 < y < m { Probing.ModUnique(y, m, 0, y); }
    if m < y { Probing.ModUnique(y, m, 1, y - m); }
  }

  lemma SlopUnique(a: nat, alignment: nat, x: nat)
    requires x < alignment && (a + x) % alignment == 0
    ensures AlignmentSlop(a, alignment) == x
  {
    var p, r := a / alignment, a % alignment;
    assert a + x == (r + x) + p * alignment;
    Probing.ModMultiple(r + x, p, alignment);
    SmallMultiple(r + x, alignment);
    if r > 0 { Probing.ModUnique(x, alignment, 0, x); }
  }

  /** Skipping fewer pages than the slop leaves the rest of the slop. */
  lemma SlopFurther(a: nat, m: nat, alignment: nat)
    requires alignment > 0 && m <= AlignmentSlop(a, alignment)
    ensures AlignmentSlop(a + m, alignment) == AlignmentSlop(a, alignment) - m
  {
    hide AlignmentSlop;
    SlopAligns(a, alignment);
    var x := AlignmentSlop(a, alignment) - m;
    assert (a + m) + x == a + AlignmentSlop(a, alignment);
    SlopUnique(a + m, alignment, x);
  }

  /** The aligned request fits into the block by itself. */
  predicate Fits(b: seq<HeapBlock>, k: nat, size: nat, alignment: nat)
    requires alignment > 0 && k < |b|
  {
    b[k].size >= size + AlignmentSlop(b[k].baseAddr, alignment)
  }

  /** Starting earlier does not make the slop longer by more than that. */
  lemma SlopEarlier(a: nat, m: nat, alignment: nat)
    requires alignment > 0
    ensures AlignmentSlop(a, alignment) <= m + AlignmentSlop(a + m, alignment)
  {
    hide AlignmentSlop;
    if m <= AlignmentSlop(a, alignment) { SlopFurther(a, m, alignment); }
  }

  /** The aligned request fits into the run of free pages that the block at k is part of. */
  ghost predicate RunSuffices(s: State, k: nat, size: nat, alignment: nat)
    requires alignment > 0
  {
    exists lo: nat, hi: nat :: WholeRun(P(s), lo, hi) && lo <= k < hi && LargeRun(s, lo, hi, size, alignment)
  }

  ghost predicate LargeRun(s: State, lo: nat, hi: nat, size: nat, alignment: nat)
    requires alignment > 0
  {
    lo < |s.addr| && hi - lo >= size + AlignmentSlop(s.addr[lo], alignment)
  }

  lemma RunTooSmall(s: State, k: nat, lo: nat, hi: nat, size: nat, alignment: nat)
    requires alignment > 0 && WholeRun(P(s), lo, hi) && lo <= k < hi && !LargeRun(s, lo, hi, size, alignment)
    ensures !RunSuffices(s, k, size, alignment)
  {
    hide LargeRun, WholeRun, P;
    forall lo': nat, hi': nat | WholeRun(P(s), lo', hi') && lo' <= k < hi'
      ensures !LargeRun(s, lo', hi', size, alignment)
    {
      OneRun(P(s), lo, hi, lo', hi', k);
    }
  }

  /** If some free pages around the block suffice, the whole run does. */
  lemma PartSuffices(s: State, k: nat, first: nat, total: nat, size: nat, alignment: nat)
    requires alignment > 0 && |s.addr| == |P(s)| && Addressed(s.addr, P(s)) && first <= k < first + total <= |P(s)|
    requires forall j :: first <= j < first + total ==> P(s)[j].Free?
    requires total >= size + AlignmentSlop(s.addr[first], alignment)
    ensures RunSuffices(s, k, size, alignment)
  {
    hide Addressed, P, AlignmentSlop;
    var lo, hi := RunAround(P(s), first, first + total);
    RunAddress(P(s), s.addr, lo, first);
    SlopEarlier(s.addr[lo], first - lo, alignment);
    assert LargeRun(s, lo, hi, size, alignment);
  }

  /** A decommitted block in a run of free pages that suffices. */
  ghost predicate Promising(s: State, k: nat, size: nat, alignment: nat)
    requires alignment > 0
  {
    k < |s.b| && !s.b[k].committed && RunSuffices(s, k, size, alignment)
  }

  /** There is such a block in one of the lists from the first one on. */
  ghost predicate SomePromising(s: State, first: nat, size: nat, alignment: nat)
    requires alignment > 0
  {
    exists i, q :: first <= i < |s.l| && 0 <= q < |s.l[i]| && Promising(s, s.l[i][q], size, alignment)
  }

  lemma PaintJoin(p: seq<Page>, a: nat, m: nat, e: nat, c: Page)
    requires a <= m <= e
    ensures Paint(Paint(p, a, m, c), m, e, c) == Paint(p, a, e, c)
    ensures Paint(Paint(p, m, e, c), a, m, c) == Paint(p, a, e, c)
  {
  }

  /** Painting more than wanted is no more than wanted, if the rest had that colour already. */
  lemma PaintOver(p: seq<Page>, a: nat, e: nat, a': nat, e': nat, x: Page, c: Page)
    requires a' <= a <= e <= e' <= |p|
    requires forall j :: a' <= j < a || e <= j < e' ==> p[j] == c
    ensures Paint(Paint(p, a', e', x), a', e', c) == Paint(p, a, e, c)
  {
  }

  /** A committed block is marked dirty, or will be, if it does not consist of zeroes. */
  ghost predicate Trusted(s: State, k: nat, makeDirty: bool)
    requires k < |s.b|
  {
    (s.b[k].committed && (makeDirty || s.b[k].dirty)) || ZeroOn(s.zero, k, k + s.b[k].size)
  }

  /** As above for a block about to be freed: its mark is lost when it merges with a clean free predecessor. */
  ghost predicate Honest(s: State, k: nat, makeDirty: bool)
    requires k < |s.b|
  {
    && Trusted(s, k, makeDirty)
    && (makeDirty || ZeroOn(s.zero, k, k + s.b[k].size) || k == 0 || k > |s.o| || P(s)[k - 1] != Free(s.b[k].committed))
  }

  /** The state after the block at k took in free neighbours of its kind, from k' up to e'. */
  ghost predicate TookIn(s: State, s': State, k: nat, k': nat, e': nat) {
    && k < |s.b| && k' <= k && k + s.b[k].size <= e' < |s.b| == |P(s)|
    && (forall j :: k' <= j < k || k + s.b[k].size <= j < e' ==> P(s)[j] == Free(s.b[k].committed))
    && P(s') == Paint(P(s), k', e', Used(k'))
    && Taken(s', k') && k' + s'.b[k'].size == e' && s'.b[k'].committed == s.b[k].committed
    && Kept(s, s', {k, k'})
    && s'.zero == s.zero
  }

  /** The block at k consists of pages that were free; all else is as it was. */
  ghost predicate InHand(s: State, s': State, k: nat) {
    && Taken(s', k) && Kept(s, s', {k}) && s'.zero == s.zero
    && k + s'.b[k].size <= |P(s)| && k < |s.b|
    && (forall j :: k <= j < k + s'.b[k].size ==> P(s)[j].Free?)
    && P(s') == Paint(P(s), k, k + s'.b[k].size, Used(k))
    && s'.b[k].baseAddr == s.b[k].baseAddr
  }

  /** What an allocation does: free pages, and nothing else, become the new block; some other free pages may have
      been committed; and all blocks in use stay as they are. */
  ghost predicate Allocated(s: State, s': State, r: nat, size: nat) {
    && Taken(s', r) && s'.b[r].size == size && s'.b[r].committed && Kept(s, s', {})
    && |P(s)| == |P(s')| && r + size <= |P(s)|
    && (forall j :: r <= j < r + size ==> P(s)[j].Free? && P(s')[j] == Used(r))
    && (forall j :: (0 <= j < r || r + size <= j < |P(s)|) && P(s')[j] != P(s)[j] ==>
        P(s)[j] == Free(false) && P(s')[j] == Free(true))
  }

  /** Blocks in use, but for those in x, are still there, in place and in size, also after the array grew. */
  ghost predicate Survives(s: State, s': State, x: set<nat>) {
    forall j :: 0 <= j < |s.b| && j !in x && Taken(s, j) ==>
      Taken(s', j) && s'.b[j].baseAddr == s.b[j].baseAddr && s'.b[j].size == s.b[j].size
          && s'.b[j].committed == s.b[j].committed
  }

  lemma SurvivesBoth(s: State, s1: State, s2: State, x: set<nat>, y: set<nat>)
    requires Survives(s, s1, x) && Survives(s1, s2, y)
    ensures Survives(s, s2, x + y)
  {
  }

  lemma SurvivesOnly(s: State, s': State, x: set<nat>, y: set<nat>)
    requires Survives(s, s', x) && forall j :: j in x && j !in y ==> !Taken(s, j)
    ensures Survives(s, s', y)
  {
    hide Taken;
  }

  ghost predicate AllCommitted(s: State) {
    forall k :: 0 <= k < |s.b| && Taken(s, k) ==> s.b[k].committed
  }

  /** No two slots have the same page. */
  ghost predicate Unshared(addr: seq<nat>) {
    forall i, j :: 0 <= i < j < |addr| && addr[i] > 0 ==> addr[i] != addr[j]
  }

  /** Steps of a client, and of the heap itself: the client may also write to what it has allocated. */
  datatype Op =
    | AllocPages(size: nat, zeroed: bool, alignment: nat)
    | FreePages(item: nat)
    | DecommitPages(size: nat, trim: bool)
    | DecommitAt(item: nat, size: nat, trim: bool)
    | ExpandBy(baseAddr: nat, size: nat, grant: Grant, use: Use)

  /** How the new pages are reserved: the first 'avail' of them in the last region, all others, if any, in a new one
      up to 'top'. When the heap tries to go on where the last region ends, it tests for continuity. */
  datatype Grant = Grant(avail: nat, top: nat, adjoining: bool)

  /** What the first of the new pages are used for. */
  datatype Use = Use(table: nat, regionPage: bool)

  function Used_(use: Use): nat {
    use.table + if use.regionPage then 1 else 0
  }

  /** The block array with its free lists, and the regions. */
  datatype Heap = Heap(s: State, regions: seq<Region>)

  class GCHeap {
    var blocks: seq<HeapBlock>
    var freelists: seq<seq<nat>>
    const useVirtualMemory: bool
    const sloppyCommit: bool
    ghost var owner: seq<nat>      // where the block of each slot starts
    ghost var addr: seq<nat>       // the address of each slot's page, zero for a sentinel
    ghost var zero: seq<bool>      // the page holds nothing but zeroes, now or once it is committed
    var regions: seq<Region>       // the last one is lastRegion

    ghost function S(): State
      reads this
    {
      State(blocks, freelists, owner, addr, zero)
    }

    // ----- The smallest steps

    method RemoveFromList(block: nat, ghost loose: nat)
      requires Ok(S(), loose) && Linked(S(), block)
      modifies `blocks, `freelists
      ensures Ok(S(), loose) && Taken(S(), block) && CleanAt(blocks, zero, block) && Kept(old(S()), S(), {block})
      ensures blocks == old(blocks)[block := old(blocks[block]).(linked := false)]
      ensures P(S()) == Paint(old(P(S())), block, block + blocks[block].size, Used(block))
    {
      hide Ok, Kept, CleanAt;
      IsListed(S(), loose, block);
      var i, p :| 0 <= i < |freelists| && 0 <= p < |freelists[i]| && freelists[i][p] == block;
      UnlinkOk(S(), loose, i, p, block);
      blocks := blocks[block := blocks[block].(linked := false)];
      freelists := freelists[i := Removed(freelists[i], p)];
    }

    static lemma IsListed(s: State, loose: nat, k: nat)
      requires Ok(s, loose) && Linked(s, k)
      ensures exists i, p :: 0 <= i < |s.l| && 0 <= p < |s.l[i]| && s.l[i][p] == k
    {
      assert InSome(s.l, k);
      var i :| 0 <= i < |s.l| && k in s.l[i];
      var p :| 0 <= p < |s.l[i]| && s.l[i][p] == k;
    }

    method Split(block: nat, size: nat, ghost loose: nat) returns (newBlock: nat)
      requires Ok(S(), loose) && Taken(S(), block) && 0 < size < blocks[block].size
      modifies `blocks, `owner
      ensures |blocks| == old(|blocks|)
      ensures newBlock == block + size && Ok(S(), loose) && Taken(S(), block) && Taken(S(), newBlock)
      ensures blocks[block] == old(blocks[block]).(size := size)
      ensures blocks[newBlock] == HeapBlock(old(blocks[block].baseAddr) + size, old(blocks[block].size) - size, size,
                                            false, blocks[block].committed, blocks[block].dirty)
      ensures P(S()) == Paint(old(P(S())), newBlock, block + old(blocks[block].size), Used(newBlock))
      ensures Kept(old(S()), S(), {block})
      ensures old(CleanAt(blocks, zero, block)) ==> CleanAt(blocks, zero, block) && CleanAt(blocks, zero, newBlock)
    {
      hide Ok, Kept, CleanAt;
      SplitOk(S(), loose, block, size);
      newBlock := block + size;
      var nextBlock := block + blocks[block].size;
      owner := SplitOwner(owner, block, size);
      blocks := SplitBlocks(blocks, block, size);
    }

    /** Merging with a successor that is in no list; the tag behind both is not yet right. */
    method Absorb(block: nat, nextBlock: nat, ghost loose: nat)
      requires Ok(S(), loose) && Taken(S(), block) && Taken(S(), nextBlock) && nextBlock == block + blocks[block].size
      requires loose == nextBlock || loose == |blocks|
      modifies `blocks, `owner
      ensures |blocks| == old(|blocks|)
      ensures Ok(S(), nextBlock + old(blocks[nextBlock].size)) && Taken(S(), block)
      ensures blocks[block] == old(blocks[block]).(size := old(blocks[block].size + blocks[nextBlock].size))
      ensures P(S()) == Paint(old(P(S())), nextBlock, nextBlock + old(blocks[nextBlock].size), Used(block))
      ensures Kept(old(S()), S(), {block, nextBlock})
    {
      hide Ok, Kept;
      MergeOk(S(), loose, block, nextBlock);
      owner := MergeOwner(owner, block, nextBlock);
      blocks := blocks[block := blocks[block].(size := blocks[block].size + blocks[nextBlock].size)]
        [nextBlock := blocks[nextBlock].(size := 0, baseAddr := 0, sizePrevious := 0)];
    }

    /** Coalescing with a free predecessor that is committed, or decommitted, like the block itself. */
    method CoalescePrevious(block: nat, makeDirty: bool) returns (block': nat, makeDirty': bool, ghost loose: nat)
      requires Ok(S(), |blocks|) && Taken(S(), block) && Honest(S(), block, makeDirty)
      modifies `blocks, `freelists, `owner
      ensures |blocks| == old(|blocks|)
      ensures TookIn(old(S()), S(), block, block', block + old(blocks[block].size))
      ensures Ok(S(), loose) && (loose == block' + blocks[block'].size || loose == |blocks|)
      ensures Trusted(S(), block', makeDirty')
      ensures block' > 0 ==> old(P(S()))[block' - 1] != Free(old(blocks[block].committed))
    {
      hide Ok, Kept, Taken, Linked, P, Honest, Trusted, TookIn;
      ghost var s := S();
      PreviousIs(s, block);
      block', makeDirty', loose := block, makeDirty, |blocks|;
      if blocks[block].sizePrevious != 0 {
        var prevBlock := block - blocks[block].sizePrevious;
        if blocks[prevBlock].linked && blocks[prevBlock].committed == blocks[block].committed {
          block' := prevBlock;
          makeDirty' := MergeFree(prevBlock, block, makeDirty);
          loose := block + s.b[block].size;
          TookTaken(s, S(), block, prevBlock, block + s.b[block].size);
          return;
        }
      }
      TookNothing(s, block, makeDirty);
    }

    method MergeFree(prevBlock: nat, block: nat, makeDirty: bool) returns (makeDirty': bool)
      requires Ok(S(), |blocks|) && Taken(S(), block) && Honest(S(), block, makeDirty) && Linked(S(), prevBlock)
      requires blocks[prevBlock].committed == blocks[block].committed && prevBlock + blocks[prevBlock].size == block
      modifies `blocks, `freelists, `owner
      ensures |blocks| == old(|blocks|) && Ok(S(), block + old(blocks[block].size))
      ensures TookIn(old(S()), S(), block, prevBlock, block + old(blocks[block].size)) && prevBlock < |blocks|
      ensures Trusted(S(), prevBlock, makeDirty')
    {
      hide Ok, Kept, Taken, P, Honest, Trusted, TookIn;
      ghost var s := S();
      LinkedPages(s, |blocks|, prevBlock);
      TakenPages(s, |blocks|, block);
      RemoveFromList(prevBlock, |blocks|);
      ghost var s1 := S();
      StillTaken(s, s1, block, prevBlock);
      Absorb(prevBlock, block, |blocks|);
      makeDirty' := makeDirty || blocks[prevBlock].dirty;
      TookPrevious(s, s1, S(), block, prevBlock, makeDirty, makeDirty');
    }

    static lemma PreviousIs(s: State, k: nat)
      requires Ok(s, |s.b|) && Taken(s, k)
      ensures k < |s.b| == |P(s)| && k + s.b[k].size < |s.b|
      ensures s.b[k].sizePrevious > 0 ==>
                var j := k - s.b[k].sizePrevious;
                && 0 <= j < k && j + s.b[j].size == k
                && (s.b[j].linked ==> Linked(s, j) && P(s)[k - 1] == Free(s.b[j].committed))
                && (!s.b[j].linked ==> P(s)[k - 1] == Used(j))
                && (s.b[j].linked && j > 0 ==> P(s)[j - 1] != Free(s.b[j].committed))
      ensures s.b[k].sizePrevious == 0 && k > 0 ==> P(s)[k - 1] == Sentinel
    {
      hide Tiling, Cleared, Addressed, Listed;
      TagLeadsBack(s, |s.b|, k);
      PagesAre(s, |s.b|, k);
      if s.b[k].sizePrevious > 0 { FreeHead(s, |s.b|, k - s.b[k].sizePrevious); }
    }

    static lemma StillTaken(s: State, s1: State, k: nat, j: nat)
      requires Taken(s, k) && Linked(s, j) && Kept(s, s1, {j})
      ensures Taken(s1, k) && s1.b[k] == s.b[k].(sizePrevious := s1.b[k].sizePrevious)
    {
    }

    static lemma TookNothing(s: State, k: nat, makeDirty: bool)
      requires Ok(s, |s.b|) && Taken(s, k) && Honest(s, k, makeDirty)
      ensures TookIn(s, s, k, k, k + s.b[k].size) && Trusted(s, k, makeDirty)
    {
      hide Tiling, Cleared, Addressed, Listed;
      PaintSame(s, |s.b|, k);
      PagesAre(s, |s.b|, k);
    }

    static lemma TookPrevious(s: State, s1: State, s2: State, k: nat, j: nat, makeDirty: bool, makeDirty': bool)
      requires Ok(s, |s.b|) && Taken(s, k) && Honest(s, k, makeDirty)
      requires Linked(s, j) && s.b[j].committed == s.b[k].committed && j + s.b[j].size == k && |P(s)| == |s.b|
      requires k + s.b[k].size < |s.b|
      requires s1.b == s.b[j := s.b[j].(linked := false)] && Taken(s2, j)
      requires Kept(s, s1, {j}) && Kept(s1, s2, {j, k}) && s1.zero == s.zero == s2.zero
      requires P(s1) == Paint(P(s), j, k, Used(j)) && P(s2) == Paint(P(s1), k, k + s.b[k].size, Used(j))
      requires s2.b[j] == s1.b[j].(size := s1.b[j].size + s.b[k].size) && makeDirty' == (makeDirty || s2.b[j].dirty)
      requires CleanAt(s1.b, s1.zero, j) && P(s)[k - 1] == Free(s.b[k].committed)
      ensures TookIn(s, s2, k, j, k + s.b[k].size) && Trusted(s2, j, makeDirty')
    {
      hide Ok, Pages;
      LinkedPages(s, |s.b|, j);
      PaintJoin(P(s), j, k, k + s.b[k].size, Used(j));
      KeptBoth(s, s1, s2, {j}, {j, k});
      assert {j} + {j, k} == {k, j};
    }

    static lemma LinkedPages(s: State, loose: nat, k: nat)
      requires Ok(s, loose) && Linked(s, k)
      ensures |P(s)| == |s.b| && k + s.b[k].size < |s.b| && s.b[k].size > 0
      ensures forall j :: k <= j < k + s.b[k].size ==> P(s)[j] == Free(s.b[k].committed)
      ensures k > 0 ==> P(s)[k - 1] != Free(s.b[k].committed)
      ensures P(s)[k + s.b[k].size] != Free(s.b[k].committed)
    {
      hide Tiling, Cleared, Addressed, Listed;
      IsHead(s, loose, k);
      PagesAre(s, loose, k);
      assert P(s)[k + s.b[k].size - 1] == Free(s.b[k].committed);
    }

    /** Coalescing with a free successor of the same kind. */
    method CoalesceNext(block: nat, makeDirty: bool, ghost loose: nat) returns (makeDirty': bool, ghost loose': nat)
      requires Ok(S(), loose) && Taken(S(), block) && Trusted(S(), block, makeDirty)
      requires loose == block + blocks[block].size || loose == |blocks|
      modifies `blocks, `freelists, `owner
      ensures |blocks| == old(|blocks|)
      ensures Taken(S(), block) && TookIn(old(S()), S(), block, block, block + blocks[block].size)
      ensures Ok(S(), loose') && (loose' == block + blocks[block].size || loose' == |blocks|)
      ensures Trusted(S(), block, makeDirty')
      ensures P(S())[block + blocks[block].size] != Free(blocks[block].committed)
    {
      hide Ok, Kept, Taken, Linked, P, Trusted, TookIn;
      ghost var s := S();
      NextIs(s, loose, block);
      makeDirty', loose' := makeDirty, loose;
      var nextBlock := block + blocks[block].size;
      if blocks[nextBlock].linked && blocks[nextBlock].committed == blocks[block].committed {
        loose' := nextBlock + blocks[nextBlock].size;
        makeDirty' := MergeFreeNext(block, nextBlock, makeDirty, loose);
        return;
      }
      TookNone(s, loose, block, makeDirty);
    }

    method MergeFreeNext(block: nat, nextBlock: nat, makeDirty: bool, ghost loose: nat) returns (makeDirty': bool)
      requires Ok(S(), loose) && Taken(S(), block) && Trusted(S(), block, makeDirty) && Linked(S(), nextBlock)
      requires nextBlock == block + blocks[block].size && (loose == nextBlock || loose == |blocks|)
      requires blocks[nextBlock].committed == blocks[block].committed
      modifies `blocks, `freelists, `owner
      ensures |blocks| == old(|blocks|) && Ok(S(), nextBlock + old(blocks[nextBlock].size)) && Taken(S(), block)
      ensures block + blocks[block].size == nextBlock + old(blocks[nextBlock].size)
      ensures TookIn(old(S()), S(), block, block, block + blocks[block].size) && Trusted(S(), block, makeDirty')
      ensures block + blocks[block].size < |P(S())|
      ensures P(S())[block + blocks[block].size] != Free(blocks[block].committed)
    {
      hide Ok, Kept, Taken, P, Trusted, TookIn;
      ghost var s := S();
      TakenIs(s, block);
      RemoveFromList(nextBlock, loose);
      ghost var s1 := S();
      StillTaken(s, s1, block, nextBlock);
      makeDirty' := makeDirty || blocks[nextBlock].dirty;
      Absorb(block, nextBlock, loose);
      TakenIs(S(), block);
      TookNext(s, loose, s1, S(), block, makeDirty, makeDirty');
    }

    static lemma NextIs(s: State, loose: nat, k: nat)
      requires Ok(s, loose) && Taken(s, k)
      ensures k < |s.b| == |P(s)| && k + s.b[k].size < |s.b|
      ensures s.b[k + s.b[k].size].linked <==> P(s)[k + s.b[k].size].Free?
      ensures s.b[k + s.b[k].size].linked ==>
                Linked(s, k + s.b[k].size) && P(s)[k + s.b[k].size] == Free(s.b[k + s.b[k].size].committed)
    {
      hide Tiling, Cleared, Addressed, Listed;
      PagesAre(s, loose, k);
      FreeHead(s, loose, k + s.b[k].size);
    }

    static lemma TookNone(s: State, loose: nat, k: nat, makeDirty: bool)
      requires Ok(s, loose) && Taken(s, k)
      ensures TookIn(s, s, k, k, k + s.b[k].size)
    {
      hide Tiling, Cleared, Addressed, Listed;
      PaintSame(s, loose, k);
      PagesAre(s, loose, k);
    }

    static lemma TookNext(s: State, loose: nat, s1: State, s2: State, k: nat, makeDirty: bool, makeDirty': bool)
      requires Ok(s, loose) && Taken(s, k) && Trusted(s, k, makeDirty)
      requires Linked(s, k + s.b[k].size)
      requires var n := k + s.b[k].size;
        && s.b[n].committed == s.b[k].committed && s1.b == s.b[n := s.b[n].(linked := false)] && Taken(s2, k)
        && Kept(s, s1, {n}) && Kept(s1, s2, {k, n}) && s1.zero == s.zero == s2.zero
        && P(s1) == Paint(P(s), n, n + s.b[n].size, Used(n)) && P(s2) == Paint(P(s1), n, n + s.b[n].size, Used(k))
        && s2.b[k] == s1.b[k].(size := s1.b[k].size + s1.b[n].size) && makeDirty' == (makeDirty || s1.b[n].dirty)
        && CleanAt(s1.b, s1.zero, n)
      ensures TookIn(s, s2, k, k, k + s2.b[k].size) && Trusted(s2, k, makeDirty')
      ensures k + s2.b[k].size < |P(s2)| && P(s2)[k + s2.b[k].size] != Free(s2.b[k].committed)
    {
      hide Ok, Pages;
      var n := k + s.b[k].size;
      LinkedPages(s, loose, n);
      TakenPages(s, loose, k);
      KeptBoth(s, s1, s2, {n}, {k, n});
      KeptOnly(s, s2, {n} + {k, n}, {k, k});
    }

    static lemma TakenPages(s: State, loose: nat, k: nat)
      requires Ok(s, loose) && Taken(s, k)
      ensures |P(s)| == |s.b| && k + s.b[k].size < |s.b| && s.b[k].size > 0
      ensures forall j :: k <= j < k + s.b[k].size ==> P(s)[j] == Used(k)
    {
      hide Tiling, Cleared, Addressed, Listed;
      PagesAre(s, loose, k);
    }

    // ----- AddToFreeList

    /** Where to insert: in order of size, or at the end of a list in which all blocks have the same size. */
    method PointToInsert(block: nat, ghost loose: nat) returns (index: nat, p: nat)
      requires Ok(S(), loose) && Taken(S(), block)
      ensures index < |freelists| && p <= |freelists[index]| && Fitting(blocks, freelists[index], p, block)
      ensures RightList(blocks[block].(linked := true), index)
    {
      hide Ok, Fitting, RightList;
      index := GetFreeListIndex(blocks[block].size);
      ListIndex(S(), loose, block, index);
      var freelist := freelists[index];
      p := |freelist|;
      if blocks[block].size >= UNIQUE_THRESHOLD {
        p := 0;
        while p < |freelist| && blocks[freelist[p]].size < blocks[block].size
          invariant p <= |freelist| && forall q :: 0 <= q < p ==> blocks[freelist[q]].size < blocks[block].size
        {
          p := p + 1;
        }
      }
      InOrder(S(), loose, block, index, p);
    }

    static lemma ListIndex(s: State, loose: nat, k: nat, i: nat)
      requires Ok(s, loose) && Taken(s, k) && i == GetFreeListIndex(s.b[k].size)
      ensures i < |s.l| && RightList(s.b[k].(linked := true), i)
      ensures forall q :: 0 <= q < |s.l[i]| ==> s.l[i][q] < |s.b|
    {
      IndexMonotone(s.b[k].size, s.b[k].size);
    }

    static lemma InOrder(s: State, loose: nat, k: nat, i: nat, p: nat)
      requires Ok(s, loose) && Taken(s, k) && i == GetFreeListIndex(s.b[k].size) && i < |s.l| && p <= |s.l[i]|
      requires forall q :: 0 <= q < |s.l[i]| ==> s.l[i][q] < |s.b|
      requires if s.b[k].size < UNIQUE_THRESHOLD then p == |s.l[i]| else
               (forall q :: 0 <= q < p ==> s.b[s.l[i][q]].size < s.b[k].size)
               && (p < |s.l[i]| ==> s.b[s.l[i][p]].size >= s.b[k].size)
      ensures Fitting(s.b, s.l[i], p, k)
    {
      hide Tiles, Tags, Coalesced, Based, Addressed, Clean, Complete, Distinct;
      var l := s.l[i];
      assert Ordered(s.b, l);
      if s.b[k].size < UNIQUE_THRESHOLD {
        forall q | 0 <= q < |l| ensures s.b[l[q]].size == s.b[k].size {
          assert RightList(s.b[l[q]], i);
          SameIndex(s.b[l[q]].size, s.b[k].size);
        }
      }
    }

    static lemma SameIndex(a: nat, n: nat)
      requires 0 < n < UNIQUE_THRESHOLD && 0 < a
      requires (GetFreeListIndex(a) == GetFreeListIndex(n) || GetFreeListIndex(n) == 29)
      ensures a == n
    {
    }

    /** The end of AddToFreeList: the tag behind, the dirty mark, and the insertion. */
    method Release(block: nat, makeDirty: bool, ghost loose: nat)
      requires Ok(S(), loose) && Taken(S(), block) && Apart(S(), block, blocks[block].committed)
      requires Trusted(S(), block, makeDirty)
      modifies `blocks, `freelists
      ensures |blocks| == old(|blocks|)
      ensures Ok(S(), if loose == block + old(blocks[block].size) then |blocks| else loose)
      ensures P(S()) == Paint(old(P(S())), block, block + old(blocks[block].size), Free(old(blocks[block].committed)))
      ensures Kept(old(S()), S(), {block})
    {
      hide Ok, Kept, Fitting, RightList, Apart, CleanAt, P, Taken, Trusted;
      ghost var s := S();
      TakenIs(s, block);
      ReleaseParts(s, loose, block, makeDirty);
      var nextBlock := block + blocks[block].size;
      ghost var loose' := if loose == nextBlock then |blocks| else loose;
      blocks := blocks[nextBlock := blocks[nextBlock].(sizePrevious := blocks[block].size)];
      blocks := blocks[block := blocks[block].(dirty := blocks[block].dirty || makeDirty)];
      ghost var s2 := S();
      var index, p := PointToInsert(block, loose');
      LinkOk(s2, loose', block, index, p);
      freelists := freelists[index := Inserted(freelists[index], p, block)];
      blocks := blocks[block := blocks[block].(linked := true)];
      KeptBoth(s, s2, S(), {block}, {block});
      assert {block} + {block} == {block};
    }

    static lemma ReleaseParts(s: State, loose: nat, k: nat, makeDirty: bool)
      requires Ok(s, loose) && Taken(s, k) && Apart(s, k, s.b[k].committed)
      requires Trusted(s, k, makeDirty)
      ensures k + s.b[k].size < |s.b|
      ensures var s1 := Fix(s, k); var c := s.b[k].committed; var s2 := SetFlags(s1, k, c, s.b[k].dirty || makeDirty);
        && Ok(s2, if loose == k + s.b[k].size then |s.b| else loose) && Taken(s2, k) && Kept(s, s2, {k})
        && P(s2) == P(s) && CleanAt(s2.b, s2.zero, k) && Apart(s2, k, c)
        && s1.b[k] == s.b[k] && s2.b[k] == s.b[k].(dirty := s.b[k].dirty || makeDirty)
    {
      hide Ok, Kept, Taken, P;
      TakenIs(s, k);
      FixOk(s, loose, k);
      var loose' := if loose == k + s.b[k].size then |s.b| else loose;
      var s1 := Fix(s, k);
      SetFlagsOk(s1, loose', k, s.b[k].committed, s.b[k].dirty || makeDirty);
      var s2 := SetFlags(s1, k, s.b[k].committed, s.b[k].dirty || makeDirty);
      KeptBoth(s, s1, s2, {}, {k});
      assert {} + {k} == {k};
    }

    /** AddToFreeList: the pages of the block become free; committed free neighbours merge with it. */
    method AddToFreeList(block: nat, makeDirty: bool, ghost loose: nat)
      requires Ok(S(), loose) && Taken(S(), block)
      requires blocks[block].committed ==> loose == |blocks| && Honest(S(), block, makeDirty)
      requires !blocks[block].committed ==> CleanAt(blocks, zero, block) && Apart(S(), block, false)
      modifies `blocks, `freelists, `owner
      ensures Ok(S(), loose) && |blocks| == old(|blocks|)
      ensures P(S()) == Paint(old(P(S())), block, block + old(blocks[block].size), Free(old(blocks[block].committed)))
      ensures Kept(old(S()), S(), {block})
    {
      hide Ok, Kept, Apart, CleanAt, P, Taken, Trusted, Honest, TookIn;
      ghost var s := S();
      TakenIs(s, block);
      if blocks[block].committed {
        var block', makeDirty', l := CoalescePrevious(block, makeDirty);
        ghost var s1 := S();
        TookTaken(s, s1, block, block', block + s.b[block].size);
        makeDirty', l := CoalesceNext(block', makeDirty', l);
        ghost var s2 := S();
        TookBoth(s, s1, s2, block, block');
        Release(block', makeDirty', l);
        Freed(s, s2, S(), block, block');
      } else {
        CleanTrusted(s, block, makeDirty);
        Release(block, makeDirty, loose);
        Loosen(S(), loose);
      }
    }

    static lemma CleanTrusted(s: State, k: nat, makeDirty: bool)
      requires k < |s.b| && CleanAt(s.b, s.zero, k)
      ensures Trusted(s, k, makeDirty)
    {
    }

    static lemma TookTaken(s: State, s': State, k: nat, k': nat, e: nat)
      requires TookIn(s, s', k, k', e)
      ensures Taken(s', k') && k < |s.b| && k' < |s'.b| == |s.b| && s'.b[k'].committed == s.b[k].committed
      ensures k' + s'.b[k'].size == e
    {
      hide P;
    }

    static lemma Loosen(s: State, loose: nat)
      ensures Ok(s, |s.b|) ==> Ok(s, loose)
    {
    }

    static lemma TookBoth(s: State, s1: State, s2: State, k: nat, k': nat)
      requires k < |s.b| && TookIn(s, s1, k, k', k + s.b[k].size) && k' < |s2.b|
      requires TookIn(s1, s2, k', k', k' + s2.b[k'].size)
      requires k' > 0 && k' <= |P(s)| ==> P(s)[k' - 1] != Free(s.b[k].committed)
      requires k' + s2.b[k'].size < |P(s2)| ==> P(s2)[k' + s2.b[k'].size] != Free(s2.b[k'].committed)
      ensures TookIn(s, s2, k, k', k' + s2.b[k'].size) && Apart(s2, k', s2.b[k'].committed)
      ensures s2.b[k'].committed == s.b[k].committed && Taken(s2, k')
    {
      hide Pages, Taken, Kept, Apart;
      KeptBoth(s, s1, s2, {k, k'}, {k', k'});
      assert {k, k'} + {k', k'} == {k, k'};
      PaintInside(P(s), k', k + s.b[k].size, k' + s2.b[k'].size, Used(k'));
      ApartIs(s, s1, s2, k, k');
    }

    static lemma ApartIs(s: State, s1: State, s2: State, k: nat, k': nat)
      requires k < |s.b| && k' < |s2.b| && s2.b[k'].committed == s.b[k].committed
      requires |P(s)| == |s2.o| && P(s2) == Paint(P(s), k', k' + s2.b[k'].size, Used(k'))
      requires k' > 0 && k' <= |P(s)| ==> P(s)[k' - 1] != Free(s.b[k].committed)
      requires k' + s2.b[k'].size < |P(s2)| ==> P(s2)[k' + s2.b[k'].size] != Free(s2.b[k'].committed)
      ensures Apart(s2, k', s2.b[k'].committed)
    {
      hide Pages;
    }

    static lemma PaintInside(p: seq<Page>, a: nat, m: nat, e: nat, c: Page)
      requires a <= m <= e
      ensures Paint(Paint(p, a, m, c), a, e, c) == Paint(p, a, e, c)
    {
    }

    static lemma Freed(s: State, s2: State, s3: State, k: nat, k': nat)
      requires k < |s.b| && k' < |s2.b| && TookIn(s, s2, k, k', k' + s2.b[k'].size) && Kept(s2, s3, {k'})
      requires P(s3) == Paint(P(s2), k', k' + s2.b[k'].size, Free(s.b[k].committed))
      ensures P(s3) == Paint(P(s), k, k + s.b[k].size, Free(s.b[k].committed)) && Kept(s, s3, {k})
    {
      hide Kept;
      assert k' < k && Taken(s, k') ==> P(s)[k'] == Used(k');
      PaintOver(P(s), k, k + s.b[k].size, k', k' + s2.b[k'].size, Used(k'), Free(s.b[k].committed));
      KeptBoth(s, s2, s3, {k, k'}, {k'});
      KeptOnly(s, s3, {k, k'} + {k'}, {k});
    }

    /** FreeBlock: the pages become free, and count as dirty. */
    method FreeBlock(block: nat)
      requires Ok(S(), |blocks|) && Taken(S(), block) && blocks[block].committed
      modifies `blocks, `freelists, `owner
      ensures Ok(S(), |blocks|) && |blocks| == old(|blocks|)
      ensures P(S()) == Paint(old(P(S())), block, block + old(blocks[block].size), Free(true))
      ensures Kept(old(S()), S(), {block})
    {
      AddToFreeList(block, true, |blocks|);
    }

    // ----- Allocation from a committed block

    /** The first pages of the block are freed. */
    method CutFront(block: nat, slop: nat) returns (rest: nat)
      requires Ok(S(), |blocks|) && Taken(S(), block) && blocks[block].committed && CleanAt(blocks, zero, block)
      requires 0 < slop < blocks[block].size
      requires block == 0 || block > |owner| || P(S())[block - 1] != Free(true) || ZeroOn(zero, block, block + slop)
      modifies `blocks, `freelists, `owner
      ensures Ok(S(), |blocks|) && |blocks| == old(|blocks|) && rest == block + slop && Taken(S(), rest)
      ensures blocks[rest].size == old(blocks[block].size) - slop && blocks[rest].committed
      ensures blocks[rest].baseAddr == old(blocks[block].baseAddr) + slop && CleanAt(blocks, zero, rest)
      ensures P(S()) ==
                Paint(Paint(old(P(S())), block, rest, Free(true)), rest, block + old(blocks[block].size), Used(rest))
      ensures Kept(old(S()), S(), {block})
    {
      hide Ok, Kept, P, Taken, Honest;
      ghost var s := S();
      TakenIs(s, block);
      rest := Split(block, slop, |blocks|);
      ghost var s1 := S();
      SplitHonest(s, s1, block, rest);
      AddToFreeList(block, false, |blocks|);
      FrontCut(s, s1, S(), block, rest);
    }

    static lemma SplitHonest(s: State, s1: State, k: nat, n: nat)
      requires k < n && Ok(s, |s.b|) && Taken(s, k) && Taken(s1, k) && CleanAt(s1.b, s1.zero, k) && s1.b[k].committed
      requires k + s1.b[k].size == n && P(s1) == Paint(P(s), n, k + s.b[k].size, Used(n)) && |s1.b| == |s.b|
      requires k == 0 || k > |s.o| || P(s)[k - 1] != Free(true) || ZeroOn(s1.zero, k, n)
      ensures Honest(s1, k, false)
    {
      hide Ok;
      TakenPages(s, |s.b|, k);
    }

    static lemma FrontCut(s: State, s1: State, s2: State, k: nat, n: nat)
      requires Taken(s, k) && k < n < k + s.b[k].size && Taken(s1, n) && CleanAt(s1.b, s1.zero, n) && s2.zero == s1.zero
      requires Kept(s, s1, {k}) && Kept(s1, s2, {k})
      requires P(s1) == Paint(P(s), n, k + s.b[k].size, Used(n)) && P(s2) == Paint(P(s1), k, n, Free(true))
      ensures Kept(s, s2, {k}) && Taken(s2, n) && CleanAt(s2.b, s2.zero, n)
      ensures s2.b[n] == s1.b[n].(sizePrevious := s2.b[n].sizePrevious)
      ensures P(s2) == Paint(Paint(P(s), k, n, Free(true)), n, k + s.b[k].size, Used(n))
    {
      hide Pages;
      KeptBoth(s, s1, s2, {k}, {k});
      assert {k} + {k} == {k};
    }

    /** The pages of the block but for the first 'size' are freed. */
    method CutBack(block: nat, size: nat)
      requires Ok(S(), |blocks|) && Taken(S(), block) && blocks[block].committed && CleanAt(blocks, zero, block)
      requires 0 < size < blocks[block].size
      modifies `blocks, `freelists, `owner
      ensures Ok(S(), |blocks|) && |blocks| == old(|blocks|) && Taken(S(), block)
      ensures blocks[block] == old(blocks[block]).(size := size, sizePrevious := blocks[block].sizePrevious)
      ensures CleanAt(blocks, zero, block)
      ensures P(S()) == Paint(old(P(S())), block + size, block + old(blocks[block].size), Free(true))
      ensures Kept(old(S()), S(), {block})
    {
      hide Ok, Kept, P, Taken, Honest;
      ghost var s := S();
      TakenIs(s, block);
      var newBlock := Split(block, size, |blocks|);
      ghost var s1 := S();
      TailHonest(s1, block, newBlock);
      AddToFreeList(newBlock, false, |blocks|);
      BackCut(s, s1, S(), block, newBlock);
    }

    static lemma TailHonest(s1: State, k: nat, n: nat)
      requires Ok(s1, |s1.b|) && Taken(s1, k) && Taken(s1, n) && n == k + s1.b[k].size && CleanAt(s1.b, s1.zero, n)
      requires s1.b[n].committed
      ensures Honest(s1, n, false)
    {
      hide Ok;
      TakenPages(s1, |s1.b|, k);
    }

    static lemma BackCut(s: State, s1: State, s2: State, k: nat, n: nat)
      requires Taken(s, k) && k < n < k + s.b[k].size && Taken(s1, k) && CleanAt(s1.b, s1.zero, k) && s2.zero == s1.zero
      requires Ok(s, |s.b|) && Kept(s, s1, {k}) && Kept(s1, s2, {n})
      requires P(s1) == Paint(P(s), n, k + s.b[k].size, Used(n))
      requires P(s2) == Paint(P(s1), n, k + s.b[k].size, Free(true))
      ensures Kept(s, s2, {k}) && Taken(s2, k) && CleanAt(s2.b, s2.zero, k)
      ensures s2.b[k] == s1.b[k].(sizePrevious := s2.b[k].sizePrevious)
      ensures P(s2) == Paint(P(s), n, k + s.b[k].size, Free(true))
    {
      hide Pages, Ok;
      InsideNotTaken(s, k, n);
      KeptBoth(s, s1, s2, {k}, {n});
      KeptOnly(s, s2, {k} + {n}, {k});
    }

    static lemma InsideNotTaken(s: State, k: nat, n: nat)
      requires Ok(s, |s.b|) && Taken(s, k) && k < n < k + s.b[k].size
      ensures !Taken(s, n)
    {
      hide Tiling;
      InBlock(s.b, s.o, k, n);
    }

    /** AllocCommittedBlock: an aligned piece of the block, the rest of which is freed. Zeroing is saved only if
        the piece has nothing but zeroes already. */
    method AllocCommittedBlock(block0: nat, size: nat, zero0: bool, alignment: nat)
      returns (block: nat, needsZero: bool)
      requires Ok(S(), |blocks|) && Taken(S(), block0) && blocks[block0].committed && CleanAt(blocks, zero, block0)
      requires size > 0 && alignment > 0
      requires blocks[block0].size >= size + AlignmentSlop(blocks[block0].baseAddr, alignment)
      requires block0 == 0 || block0 > |owner| || P(S())[block0 - 1] != Free(true)
               || ZeroOn(zero, block0, block0 + AlignmentSlop(blocks[block0].baseAddr, alignment))
      modifies `blocks, `freelists, `owner
      ensures Ok(S(), |blocks|) && |blocks| == old(|blocks|) && Taken(S(), block)
      ensures block == block0 + AlignmentSlop(old(blocks[block0].baseAddr), alignment)
      ensures blocks[block].size == size && blocks[block].committed && blocks[block].baseAddr % alignment == 0
      ensures P(S()) == Paint(Paint(old(P(S())), block0, block0 + old(blocks[block0].size), Free(true)),
                              block, block + size, Used(block))
      ensures zero0 && !needsZero ==> ZeroOn(zero, block, block + size)
      ensures needsZero ==> zero0
      ensures Kept(old(S()), S(), {block0})
    {
      hide Ok, Kept, P, Taken, AlignmentSlop, CleanAt;
      ghost var s := S();
      TakenIs(s, block0);
      block := SkipSlop(block0, alignment, size);
      ghost var s1 := S();
      TakenIs(s1, block);
      Trim(block, size);
      TakenIs(S(), block);
      needsZero := blocks[block].dirty && zero0;
      CleanIs(S(), block);
      BothCut(s, s1, S(), block0, block, size);
    }

    method SkipSlop(block0: nat, alignment: nat, ghost size: nat) returns (block: nat)
      requires Ok(S(), |blocks|) && Taken(S(), block0) && blocks[block0].committed && CleanAt(blocks, zero, block0)
      requires size > 0 && alignment > 0
      requires blocks[block0].size >= size + AlignmentSlop(blocks[block0].baseAddr, alignment)
      requires block0 == 0 || block0 > |owner| || P(S())[block0 - 1] != Free(true)
               || ZeroOn(zero, block0, block0 + AlignmentSlop(blocks[block0].baseAddr, alignment))
      modifies `blocks, `freelists, `owner
      ensures Ok(S(), |blocks|) && |blocks| == old(|blocks|) && Taken(S(), block)
      ensures block == block0 + AlignmentSlop(old(blocks[block0].baseAddr), alignment)
      ensures blocks[block].size == old(blocks[block0].size) - (block - block0) && blocks[block].committed
      ensures CleanAt(blocks, zero, block) && blocks[block].baseAddr % alignment == 0
      ensures P(S()) == Paint(Paint(old(P(S())), block0, block, Free(true)),
                              block, block0 + old(blocks[block0].size), Used(block))
      ensures Kept(old(S()), S(), {block0})
    {
      hide Ok, Kept, P, Taken, AlignmentSlop, CleanAt;
      TakenIs(S(), block0);
      SlopAligns(blocks[block0].baseAddr, alignment);
      var slop := AlignmentSlop(blocks[block0].baseAddr, alignment);
      if slop > 0 {
        block := CutFront(block0, slop);
      } else {
        block := block0;
        SameFront(S(), block0);
      }
    }

    method Trim(block: nat, size: nat)
      requires Ok(S(), |blocks|) && Taken(S(), block) && blocks[block].committed && CleanAt(blocks, zero, block)
      requires 0 < size <= blocks[block].size
      modifies `blocks, `freelists, `owner
      ensures Ok(S(), |blocks|) && |blocks| == old(|blocks|) && Taken(S(), block)
      ensures blocks[block] == old(blocks[block]).(size := size, sizePrevious := blocks[block].sizePrevious)
      ensures CleanAt(blocks, zero, block)
      ensures P(S()) == Paint(old(P(S())), block + size, block + old(blocks[block].size), Free(true))
      ensures Kept(old(S()), S(), {block})
    {
      hide Ok, Kept, P, Taken, CleanAt;
      TakenIs(S(), block);
      if blocks[block].size > size {
        CutBack(block, size);
      } else {
        SameBack(S(), block);
      }
    }

    static lemma CleanIs(s: State, k: nat)
      requires k < |s.b| && CleanAt(s.b, s.zero, k)
      ensures !s.b[k].dirty ==> ZeroOn(s.zero, k, k + s.b[k].size)
    {
    }

    static lemma SameFront(s: State, k: nat)
      requires Ok(s, |s.b|) && Taken(s, k)
      ensures P(s) == Paint(Paint(P(s), k, k, Free(true)), k, k + s.b[k].size, Used(k)) && Kept(s, s, {k})
    {
      hide Ok;
      TakenPages(s, |s.b|, k);
    }

    static lemma SameBack(s: State, k: nat)
      requires Taken(s, k)
      ensures P(s) == Paint(P(s), k + s.b[k].size, k + s.b[k].size, Free(true)) && Kept(s, s, {k})
    {
    }

    static lemma BothCut(s: State, s1: State, s2: State, k: nat, n: nat, size: nat)
      requires Ok(s, |s.b|) && Taken(s, k) && k <= n && n + size <= k + s.b[k].size && size > 0
      requires P(s1) == Paint(Paint(P(s), k, n, Free(true)), n, k + s.b[k].size, Used(n))
      requires P(s2) == Paint(P(s1), n + size, k + s.b[k].size, Free(true))
      requires Kept(s, s1, {k}) && Kept(s1, s2, {n})
      ensures P(s2) == Paint(Paint(P(s), k, k + s.b[k].size, Free(true)), n, n + size, Used(n)) && Kept(s, s2, {k})
    {
      hide Ok, Kept;
      TakenPages(s, |s.b|, k);
      KeptBoth(s, s1, s2, {k}, {n});
      if n != k { InsideNotTaken(s, k, n); }
      KeptOnly(s, s2, {k} + {n}, {k});
    }

    // ----- Committing

    method Commit(block: nat, ghost loose: nat)
      requires Ok(S(), loose) && Taken(S(), block) && (sloppyCommit || !blocks[block].committed)
      modifies `blocks
      ensures Ok(S(), loose) && Taken(S(), block) && Kept(old(S()), S(), {block}) && P(S()) == old(P(S()))
      ensures blocks == old(blocks)[block := old(blocks[block]).(committed := true, dirty := false)]
    {
      hide Ok, Kept;
      SetFlagsOk(S(), loose, block, true, false);
      blocks := blocks[block := blocks[block].(committed := true, dirty := false)];
    }

    /** What is more than wanted, and more than the minimum worth committing, stays decommitted. */
    method PruneDecommittedBlock(block: nat, available: nat, request: nat, ghost loose: nat)
      requires Ok(S(), loose) && Taken(S(), block) && !blocks[block].committed && CleanAt(blocks, zero, block)
      requires request <= available < request + blocks[block].size
      requires block + blocks[block].size < |owner| && P(S())[block + blocks[block].size] != Free(false)
      modifies `blocks, `freelists, `owner
      ensures Ok(S(), loose) && |blocks| == old(|blocks|) && Taken(S(), block) && CleanAt(blocks, zero, block)
      ensures blocks[block] ==
                old(blocks[block]).(size := blocks[block].size, sizePrevious := blocks[block].sizePrevious)
      ensures blocks[block].size == old(blocks[block].size) -
                if available > MostToCommit(request) then available - request else 0
      ensures P(S()) == Paint(old(P(S())), block + blocks[block].size, block + old(blocks[block].size), Free(false))
      ensures Kept(old(S()), S(), {block})
    {
      hide Ok, Kept, P, Taken, CleanAt, Apart, Honest;
      ghost var s := S();
      TakenIs(s, block);
      var toCommit := MostToCommit(request);
      var leftOver := available - request;
      if available > toCommit && leftOver > 0 {
        var newBlock := Split(block, blocks[block].size - leftOver, loose);
        ghost var s1 := S();
        LeftOverApart(s, s1, loose, block, newBlock);
        AddToFreeList(newBlock, false, loose);
        LeftOver(s, s1, S(), loose, block, newBlock);
      } else {
        SameTail(s, block);
      }
    }

    static lemma SameTail(s: State, k: nat)
      requires Taken(s, k)
      ensures P(s) == Paint(P(s), k + s.b[k].size, k + s.b[k].size, Free(false)) && Kept(s, s, {k})
    {
    }

    static lemma LeftOverApart(s: State, s1: State, loose: nat, k: nat, n: nat)
      requires Ok(s, loose) && Taken(s, k) && k < n < k + s.b[k].size && Ok(s1, loose) && Taken(s1, k) && Taken(s1, n)
      requires n == k + s1.b[k].size && n + s1.b[n].size == k + s.b[k].size
      requires P(s1) == Paint(P(s), n, k + s.b[k].size, Used(n))
      requires k + s.b[k].size < |s.o| && P(s)[k + s.b[k].size] != Free(false)
      ensures Apart(s1, n, false)
    {
      hide Ok;
      TakenPages(s, loose, k);
      TakenPages(s1, loose, k);
    }

    static lemma LeftOver(s: State, s1: State, s2: State, loose: nat, k: nat, n: nat)
      requires Ok(s, loose) && Taken(s, k) && k < n < k + s.b[k].size && Taken(s1, k)
      requires CleanAt(s1.b, s1.zero, k) && s2.zero == s1.zero && Kept(s, s1, {k}) && Kept(s1, s2, {n})
      requires P(s1) == Paint(P(s), n, k + s.b[k].size, Used(n))
      requires P(s2) == Paint(P(s1), n, k + s.b[k].size, Free(false))
      ensures Kept(s, s2, {k}) && Taken(s2, k) && CleanAt(s2.b, s2.zero, k)
      ensures s2.b[k] == s1.b[k].(sizePrevious := s2.b[k].sizePrevious)
      ensures P(s2) == Paint(P(s), n, k + s.b[k].size, Free(false))
    {
      hide Pages, Ok;
      InsideTaken(s, loose, k, n);
      KeptBoth(s, s1, s2, {k}, {n});
      KeptOnly(s, s2, {k} + {n}, {k});
    }

    static lemma InsideTaken(s: State, loose: nat, k: nat, n: nat)
      requires Ok(s, loose) && Taken(s, k) && k < n < k + s.b[k].size
      ensures !Taken(s, n)
    {
      hide Tiling;
      InBlock(s.b, s.o, k, n);
    }

    /** A round of the loop of CreateCommittedBlock: the block takes in its successor, or as much of it as is needed. */
    method TakeNext(block: nat, size: nat, dirty: bool, ghost s0: State, ghost loose: nat)
      returns (dirty': bool, ghost loose': nat)
      requires Ok(S(), loose) && InHand(s0, S(), block) && (loose == block + blocks[block].size || loose == |blocks|)
      requires blocks[block].size < size && (sloppyCommit || blocks[block].committed)
      requires block + blocks[block].size < |P(s0)| && P(s0)[block + blocks[block].size].Free?
      requires dirty || ZeroOn(zero, block, block + blocks[block].size)
      modifies `blocks, `freelists, `owner
      ensures |blocks| == old(|blocks|) && Taken(S(), block)
      ensures Ok(S(), loose') && InHand(s0, S(), block) && (loose' == block + blocks[block].size || loose' == |blocks|)
      ensures blocks[block].size > old(blocks[block].size) && (sloppyCommit || blocks[block].committed)
      ensures dirty' || ZeroOn(zero, block, block + blocks[block].size)
      ensures blocks[block].size >= size ==> NoMoreThanNeeded(P(s0), block, size, blocks[block].size)
    {
      hide Ok, Kept, P, Taken, InHand, CleanAt, NoMoreThanNeeded, MostToCommit;
      ghost var s := S();
      NextFree(s0, s, loose, block);
      var nextBlock := block + blocks[block].size;
      dirty' := TakeOff(nextBlock, blocks[block].size, size, dirty, loose);
      ghost var s1 := S();
      OffTaken(s0, s, s1, block, nextBlock);
      loose' := nextBlock + blocks[nextBlock].size;
      Absorb(block, nextBlock, loose);
      TakenIs(S(), block);
      TookMore(s0, s, s1, S(), loose, block, dirty, dirty');
      TookNeeded(s0, s, loose, block, size, blocks[block].size);
    }

    /** Of the n pages from k on, those behind the request belong to the free block in which it ends. If that block is
        decommitted, there are none of them, or in all just the least number of pages worth committing, or fewer. */
    static ghost predicate NoMoreThanNeeded(p: seq<Page>, k: nat, request: nat, n: nat) {
      && 0 < request <= n && k + n <= |p|
      && (forall j :: k + request - 1 <= j < k + n ==> p[j] == p[k + request - 1])
      && (p[k + request - 1] == Free(false) ==> n <= MostToCommit(request))
    }

    static function MostToCommit(request: nat): nat {
      if request > MIN_HEAP_INCREMENT then request else MIN_HEAP_INCREMENT
    }

    static lemma TookNeeded(s0: State, s: State, loose: nat, k: nat, request: nat, n: nat)
      requires Ok(s, loose) && InHand(s0, s, k) && s.b[k].size < request && k + s.b[k].size < |s.b|
      requires var m := k + s.b[k].size;
        && Linked(s, m) && s.b[k].size < n <= s.b[k].size + s.b[m].size
        && (!s.b[m].committed && n >= request ==> n <= MostToCommit(request))
      ensures n >= request ==> NoMoreThanNeeded(P(s0), k, request, n)
    {
      hide Ok, Pages, MostToCommit;
      LinkedPages(s, loose, k + s.b[k].size);
      LinkedLength(s, loose, k + s.b[k].size);
    }

    /** The successor leaves its list, and is pruned and committed as needed. */
    method TakeOff(nextBlock: nat, before: nat, size: nat, dirty: bool, ghost loose: nat) returns (dirty': bool)
      requires Ok(S(), loose) && Linked(S(), nextBlock) && before < size
      modifies `blocks, `freelists, `owner
      ensures |blocks| == old(|blocks|) && Taken(S(), nextBlock)
      ensures Ok(S(), loose) && OffList(old(S()), S(), nextBlock)
      ensures sloppyCommit || blocks[nextBlock].committed
      ensures (dirty ==> dirty') && (dirty' || ZeroOn(zero, nextBlock, nextBlock + blocks[nextBlock].size))
      ensures blocks[nextBlock].size <= old(blocks[nextBlock].size)
      ensures old(!blocks[nextBlock].committed) && before + blocks[nextBlock].size >= size ==>
                before + blocks[nextBlock].size <= MostToCommit(size)
    {
      hide Ok, Kept, P, Taken, OffList, CleanAt;
      ghost var s := S();
      LinkedPages(s, loose, nextBlock);
      RemoveFromList(nextBlock, loose);
      ghost var s1 := S();
      OffListed(s, s1, loose, nextBlock);
      TakenIs(s1, nextBlock);
      CleanIs(s1, nextBlock);
      dirty' := dirty;
      if blocks[nextBlock].committed {
        dirty' := dirty || blocks[nextBlock].dirty;
      } else {
        if before + blocks[nextBlock].size >= size {
          PruneDecommittedBlock(nextBlock, before + blocks[nextBlock].size, size, loose);
          OffPruned(s, s1, S(), loose, nextBlock);
        }
        CommitPart(nextBlock, s, loose);
      }
    }

    /** Part of a free block is in hand, the rest of it stays free. */
    static ghost predicate OffList(s: State, s': State, k: nat) {
      && InHand(s, s', k) && Kept(s, s', {}) && s'.b[k].size > 0
    }

    static lemma OffListed(s: State, s1: State, loose: nat, k: nat)
      requires Ok(s, loose) && Linked(s, k) && Taken(s1, k) && Kept(s, s1, {k}) && s1.zero == s.zero
      requires s1.b == s.b[k := s.b[k].(linked := false)]
      requires P(s1) == Paint(P(s), k, k + s.b[k].size, Used(k))
      ensures OffList(s, s1, k) && InHand(s, s1, k) && s1.b[k].size == s.b[k].size && k + s.b[k].size < |s1.o|
      ensures !s.b[k].committed ==> P(s1)[k + s.b[k].size] != Free(false)
    {
      hide Ok, Pages;
      LinkedPages(s, loose, k);
      KeptOnly(s, s1, {k}, {});
    }

    static lemma OffPruned(s: State, s1: State, s2: State, loose: nat, k: nat)
      requires Ok(s, loose) && Linked(s, k) && !s.b[k].committed && Taken(s2, k) && Kept(s1, s2, {k})
      requires s2.zero == s.zero
      requires OffList(s, s1, k) && s1.b[k].size == s.b[k].size && s2.b[k].size <= s.b[k].size
      requires s2.b[k].baseAddr == s1.b[k].baseAddr
      requires P(s2) == Paint(P(s1), k + s2.b[k].size, k + s.b[k].size, Free(false))
      ensures OffList(s, s2, k)
    {
      hide Ok, Pages;
      LinkedPages(s, loose, k);
      KeptBoth(s, s1, s2, {}, {k});
      KeptOnly(s, s2, {} + {k}, {});
    }

    static lemma LinkedLength(s: State, loose: nat, k: nat)
      requires Ok(s, loose) && Linked(s, k)
      ensures k + s.b[k].size <= |P(s)|
    {
      hide Ok, P;
      LinkedPages(s, loose, k);
    }

    method CommitPart(block: nat, ghost s: State, ghost loose: nat)
      requires Ok(S(), loose) && Taken(S(), block) && OffList(s, S(), block) && !blocks[block].committed
      requires CleanAt(blocks, zero, block) && Linked(s, block)
      modifies `blocks
      ensures |blocks| == old(|blocks|) && Taken(S(), block)
      ensures Ok(S(), loose) && OffList(s, S(), block) && (sloppyCommit || blocks[block].committed)
      ensures ZeroOn(zero, block, block + blocks[block].size) && blocks[block].size == old(blocks[block].size)
    {
      hide Ok, P, Kept;
      if !sloppyCommit {
        ghost var s1 := S();
        Commit(block, loose);
        KeptBoth(s, s1, S(), {}, {block});
        KeptOnly(s, S(), {} + {block}, {});
        assert {} + {block} == {block};
      }
    }

    static lemma NextFree(s0: State, s: State, loose: nat, k: nat)
      requires Ok(s, loose) && InHand(s0, s, k) && k + s.b[k].size < |P(s0)| && P(s0)[k + s.b[k].size].Free?
      ensures k < |s.b| && k + s.b[k].size < |s.b| && Linked(s, k + s.b[k].size) && Taken(s, k)
    {
      hide Tiling, Cleared, Addressed, Listed;
      PagesAre(s, loose, k);
      FreeHead(s, loose, k + s.b[k].size);
    }

    static lemma OffTaken(s0: State, s: State, s1: State, k: nat, n: nat)
      requires InHand(s0, s, k) && OffList(s, s1, n)
      ensures k < |s.b| == |s1.b| && Taken(s1, k) && s1.b[k] == s.b[k].(sizePrevious := s1.b[k].sizePrevious)
      ensures n < |s1.b|
    {
    }

    static lemma TookMore(s0: State, s: State, s1: State, s2: State, loose: nat, k: nat, dirty: bool, dirty': bool)
      requires Ok(s, loose) && InHand(s0, s, k) && Taken(s1, k)
      requires s1.b[k] == s.b[k].(sizePrevious := s1.b[k].sizePrevious)
      requires var n := k + s.b[k].size;
        && OffList(s, s1, n) && Taken(s2, k) && Kept(s1, s2, {k, n}) && s2.zero == s1.zero
        && s2.b[k] == s1.b[k].(size := s1.b[k].size + s1.b[n].size)
        && P(s2) == Paint(P(s1), n, n + s1.b[n].size, Used(k))
        && (dirty || ZeroOn(s.zero, k, n)) && (dirty' || ZeroOn(s1.zero, n, n + s1.b[n].size)) && (dirty ==> dirty')
      ensures InHand(s0, s2, k) && (dirty' || ZeroOn(s2.zero, k, k + s2.b[k].size))
    {
      hide Ok, Pages;
      var n := k + s.b[k].size;
      assert s1.b[n].size > 0;
      FreeNotTaken(s, n);
      KeptBoth(s, s1, s2, {}, {k, n});
      KeptOnly(s, s2, {} + {k, n}, {k});
      KeptBoth(s0, s, s2, {k}, {k});
      assert {k} + {k} == {k};
    }

    static lemma FreeNotTaken(s: State, k: nat)
      requires k < |P(s)| && P(s)[k].Free?
      ensures !Taken(s, k)
    {
    }

    /** From 'block' on there are enough free pages. */
    static ghost predicate FreeRun(s: State, block: nat, size: nat) {
      block + size <= |P(s)| && forall j :: block <= j < block + size ==> P(s)[j].Free?
    }

    /** CreateCommittedBlock: from a free block, and free blocks behind it as far as they are needed, becomes one
        committed block that is large enough, and no larger than it has to be. It is not meant for a block that is
        large enough and committed already. */
    method CreateCommittedBlock(block: nat, size0: nat, alignment: nat)
      requires Ok(S(), |blocks|) && Linked(S(), block) && size0 > 0 && alignment > 0
      requires FreeRun(S(), block, size0 + AlignmentSlop(blocks[block].baseAddr, alignment))
      requires !(blocks[block].committed
                && blocks[block].size >= size0 + AlignmentSlop(blocks[block].baseAddr, alignment))
      modifies `blocks, `freelists, `owner
      ensures Ok(S(), |blocks|) && |blocks| == old(|blocks|) && Taken(S(), block) && InHand(old(S()), S(), block)
      ensures blocks[block].committed && CleanAt(blocks, zero, block)
      ensures NoMoreThanNeeded(old(P(S())), block, size0 + AlignmentSlop(old(blocks[block].baseAddr), alignment),
                               blocks[block].size)
      ensures old(blocks[block].size >= size0 + AlignmentSlop(blocks[block].baseAddr, alignment)) ==>
                !blocks[block].dirty
    {
      hide Ok, Kept, P, Taken, InHand, CleanAt, FreeRun, AlignmentSlop, NoMoreThanNeeded;
      ghost var s0 := S();
      LinkedPages(s0, |blocks|, block);
      var size := size0 + AlignmentSlop(blocks[block].baseAddr, alignment);
      RemoveFromList(block, |blocks|);
      TakenIs(S(), block);
      CleanIs(S(), block);
      OffListed(s0, S(), |blocks|, block);
      if blocks[block].size < size {
        TakeAll(block, size, s0);
      } else {
        ghost var s1 := S();
        PruneDecommittedBlock(block, blocks[block].size, size, |blocks|);
        OffPruned(s0, s1, S(), |blocks|, block);
        CommitWhole(block, s0);
        NeededOfOne(s0, |blocks|, block, size, blocks[block].size);
      }
    }

    static lemma NeededOfOne(s: State, loose: nat, k: nat, request: nat, n: nat)
      requires Ok(s, loose) && Linked(s, k) && 0 < request <= n <= s.b[k].size && n <= MostToCommit(request)
      ensures NoMoreThanNeeded(P(s), k, request, n)
    {
      hide Ok, P, MostToCommit;
      LinkedPages(s, loose, k);
      LinkedLength(s, loose, k);
    }

    method CommitWhole(block: nat, ghost s0: State)
      requires Ok(S(), |blocks|) && Taken(S(), block) && OffList(s0, S(), block) && !blocks[block].committed
      requires CleanAt(blocks, zero, block)
      modifies `blocks
      ensures Ok(S(), |blocks|) && Taken(S(), block) && InHand(s0, S(), block)
      ensures blocks == old(blocks)[block := old(blocks[block]).(committed := true, dirty := false)]
      ensures CleanAt(blocks, zero, block)
    {
      hide Ok, P, Kept;
      ghost var s1 := S();
      Commit(block, |blocks|);
      KeptBoth(s0, s1, S(), {block}, {block});
      assert {block} + {block} == {block};
    }

    /** The loop of CreateCommittedBlock. */
    method TakeAll(block: nat, size: nat, ghost s0: State)
      requires Ok(S(), |blocks|) && Taken(S(), block) && InHand(s0, S(), block) && CleanAt(blocks, zero, block)
      requires blocks[block].size < size && FreeRun(s0, block, size)
      modifies `blocks, `freelists, `owner
      ensures Ok(S(), |blocks|) && |blocks| == old(|blocks|) && Taken(S(), block) && InHand(s0, S(), block)
      ensures blocks[block].committed && CleanAt(blocks, zero, block)
      ensures NoMoreThanNeeded(P(s0), block, size, blocks[block].size)
    {
      hide Ok, Kept, P, Taken, InHand, CleanAt, NoMoreThanNeeded;
      TakenIs(S(), block);
      CleanIs(S(), block);
      var dirty := blocks[block].dirty;
      if !sloppyCommit && !blocks[block].committed {
        CommitHand(block, s0, |blocks|);
      }
      ghost var loose: nat := |blocks|;
      while blocks[block].size < size
        invariant |blocks| == old(|blocks|) && Taken(S(), block) && block < |blocks|
        invariant Ok(S(), loose) && InHand(s0, S(), block) && (loose == block + blocks[block].size || loose == |blocks|)
        invariant sloppyCommit || blocks[block].committed
        invariant dirty || ZeroOn(zero, block, block + blocks[block].size)
        invariant blocks[block].size >= size ==> NoMoreThanNeeded(P(s0), block, size, blocks[block].size)
        decreases size - blocks[block].size
      {
        dirty, loose := TakeNext(block, size, dirty, s0, loose);
        TakenIs(S(), block);
      }
      FinishHand(block, dirty, s0, loose);
    }

    method CommitHand(block: nat, ghost s0: State, ghost loose: nat)
      requires Ok(S(), loose) && Taken(S(), block) && InHand(s0, S(), block)
      requires (sloppyCommit || !blocks[block].committed)
      modifies `blocks
      ensures Ok(S(), loose) && Taken(S(), block) && InHand(s0, S(), block)
      ensures blocks == old(blocks)[block := old(blocks[block]).(committed := true, dirty := false)]
    {
      hide Ok, P, Kept;
      ghost var s1 := S();
      Commit(block, loose);
      KeptBoth(s0, s1, S(), {block}, {block});
      assert {block} + {block} == {block};
    }

    /** The end of CreateCommittedBlock: the tag behind the block, commitment in one go, and the dirty mark. */
    method FinishHand(block: nat, dirty: bool, ghost s0: State, ghost loose: nat)
      requires Ok(S(), loose) && Taken(S(), block) && InHand(s0, S(), block)
      requires loose == block + blocks[block].size || loose == |blocks|
      requires (sloppyCommit || blocks[block].committed) && (dirty || ZeroOn(zero, block, block + blocks[block].size))
      modifies `blocks
      ensures Ok(S(), |blocks|) && |blocks| == old(|blocks|) && Taken(S(), block) && InHand(s0, S(), block)
      ensures blocks[block].committed && CleanAt(blocks, zero, block) && blocks[block].size == old(blocks[block].size)
    {
      hide Ok, Kept, P, Taken, InHand, CleanAt;
      FixHand(S(), loose, block, s0);
      var nextBlock := block + blocks[block].size;
      blocks := blocks[nextBlock := blocks[nextBlock].(sizePrevious := blocks[block].size)];
      if sloppyCommit {
        CommitHand(block, s0, |blocks|);
      }
      FlagHand(S(), |blocks|, block, s0, dirty);
      blocks := blocks[block := blocks[block].(dirty := dirty)];
    }

    static lemma FixHand(s: State, loose: nat, k: nat, s0: State)
      requires Ok(s, loose) && Taken(s, k) && InHand(s0, s, k) && (loose == k + s.b[k].size || loose == |s.b|)
      ensures k + s.b[k].size < |s.b| && s.b[k].size > 0
      ensures var s' := Fix(s, k); Ok(s', |s.b|) && Taken(s', k) && InHand(s0, s', k)
    {
      hide Ok, Kept, Pages;
      FixOk(s, loose, k);
      KeptBoth(s0, s, Fix(s, k), {k}, {});
      assert {k} + {} == {k};
    }

    static lemma FlagHand(s: State, loose: nat, k: nat, s0: State, dirty: bool)
      requires Ok(s, loose) && Taken(s, k) && InHand(s0, s, k) && (dirty || ZeroOn(s.zero, k, k + s.b[k].size))
      requires s.b[k].committed
      ensures var s' := SetFlags(s, k, s.b[k].committed, dirty);
              Ok(s', loose) && Taken(s', k) && InHand(s0, s', k) && CleanAt(s'.b, s'.zero, k)
    {
      hide Ok, Kept, Pages;
      SetFlagsOk(s, loose, k, s.b[k].committed, dirty);
      KeptBoth(s0, s, SetFlags(s, k, s.b[k].committed, dirty), {k}, {k});
      assert {k} + {k} == {k};
    }

    // ----- The search of AllocBlock

    /** A free block from which CreateCommittedBlock may start. What its slop frees merges with a free committed
        predecessor only if the slop lies within the first, decommitted, block. */
    static ghost predicate Suitable(s: State, k: nat, size: nat, alignment: nat)
      requires alignment > 0
    {
      && Linked(s, k)
      && FreeRun(s, k, size + AlignmentSlop(s.b[k].baseAddr, alignment))
      && (k == 0 || k > |s.o| || !P(s)[k - 1].Free? || AlignmentSlop(s.b[k].baseAddr, alignment) <= s.b[k].size)
    }

    static lemma PreviousOfFree(s: State, k: nat)
      requires Ok(s, |s.b|) && Linked(s, k)
      ensures k + s.b[k].size < |s.b| == |P(s)| == |s.o| && s.b[k].size > 0 && s.b[k].linked
      ensures forall j :: k <= j < k + s.b[k].size ==> P(s)[j].Free?
      ensures s.b[k].sizePrevious > 0 ==>
                var j := k - s.b[k].sizePrevious;
                && 0 <= j < k && j + s.b[j].size == k && s.b[j].size > 0
                && (s.b[j].linked ==> Linked(s, j) && s.b[j].baseAddr + s.b[j].size == s.b[k].baseAddr)
                && (!s.b[j].linked ==> !P(s)[k - 1].Free?)
      ensures s.b[k].sizePrevious == 0 && k > 0 ==> !P(s)[k - 1].Free?
    {
      hide Ok, P;
      IsHead(s, |s.b|, k);
      TagLeadsBack(s, |s.b|, k);
      PagesAre(s, |s.b|, k);
      if s.b[k].sizePrevious > 0 {
        var j := k - s.b[k].sizePrevious;
        PagesAre(s, |s.b|, j);
        FreeHead(s, |s.b|, j);
        EndsAt(s, j, k);
      }
    }

    static lemma EndsAt(s: State, j: nat, k: nat)
      requires Ok(s, |s.b|) && j < k < |s.b| == |s.o| && s.o[j] == j && s.o[k] == k && j + s.b[j].size == k
      requires s.b[k].size > 0
      ensures s.b[j].baseAddr + s.b[j].size == s.b[k].baseAddr
    {
      hide Tiling, Cleared, Tags, Listed, Clean, Coalesced;
      PagesAre(s, |s.b|, j);
      PagesAre(s, |s.b|, k);
      AddressInBlock(s.b, s.o, s.addr, j, k - 1);
    }

    /** The predecessors that a decommitted block needs. */
    method LookBack(block: nat, size: nat, alignment: nat) returns (firstFree: nat, totalSize: nat)
      requires Ok(S(), |blocks|) && Linked(S(), block) && size > 0 && alignment > 0
      ensures firstFree <= block && Linked(S(), firstFree) && totalSize == block + blocks[block].size - firstFree
      ensures FreeRun(S(), firstFree, totalSize)
      ensures Fits(blocks, block, size, alignment) ==> firstFree == block
      ensures firstFree > 0 && firstFree <= |owner| && P(S())[firstFree - 1].Free? ==>
                && totalSize >= size + AlignmentSlop(blocks[firstFree].baseAddr, alignment)
                && AlignmentSlop(blocks[firstFree].baseAddr, alignment) <= blocks[firstFree].size
    {
      hide Ok, P, AlignmentSlop, Linked;
      ghost var s := S();
      PreviousOfFree(s, block);
      firstFree, totalSize := block, blocks[block].size;
      var firstSlop := AlignmentSlop(blocks[firstFree].baseAddr, alignment);
      ghost var enough := totalSize >= size + firstSlop;
      while totalSize < size + firstSlop && blocks[firstFree].sizePrevious != 0
        invariant firstFree <= block < |blocks| && Linked(s, firstFree)
        invariant totalSize == block + blocks[block].size - firstFree && FreeRun(s, firstFree, totalSize)
        invariant firstSlop == AlignmentSlop(blocks[firstFree].baseAddr, alignment)
        invariant enough ==> firstFree == block
        invariant totalSize < size + firstSlop || firstSlop <= blocks[firstFree].size
        decreases firstFree
      {
        PreviousOfFree(s, firstFree);
        var prevBlock := firstFree - blocks[firstFree].sizePrevious;
        if !blocks[prevBlock].linked || blocks[prevBlock].size == 0 {
          break;
        }
        PreviousOfFree(s, prevBlock);
        RunBack(s, prevBlock, firstFree, totalSize);
        SlopInFirst(blocks[prevBlock].baseAddr, blocks[prevBlock].size, totalSize, size, alignment);
        totalSize := totalSize + blocks[prevBlock].size;
        firstFree := prevBlock;
        firstSlop := AlignmentSlop(blocks[firstFree].baseAddr, alignment);
      }
      PreviousOfFree(s, firstFree);
    }

    static lemma RunBack(s: State, k: nat, m: nat, total: nat)
      requires k < |s.b| && k + s.b[k].size == m && FreeRun(s, m, total)
      requires forall j :: k <= j < m ==> j < |P(s)| && P(s)[j].Free?
      ensures FreeRun(s, k, total + s.b[k].size)
    {
    }

    /** If the pages behind the first block did not suffice, but with it they do, the slop lies within it. */
    static lemma SlopInFirst(a: nat, first: nat, rest: nat, size: nat, alignment: nat)
      requires alignment > 0 && rest < size + AlignmentSlop(a + first, alignment)
      ensures rest + first < size + AlignmentSlop(a, alignment) || AlignmentSlop(a, alignment) <= first
    {
      if AlignmentSlop(a, alignment) > first { SlopFurther(a, first, alignment); }
    }

    /** Whether the pages around a decommitted block suffice, and from where on. */
    method LookAround(block: nat, size: nat, alignment: nat) returns (suitable: Option<nat>)
      requires Ok(S(), |blocks|) && Linked(S(), block) && size > 0 && alignment > 0
      ensures suitable.Some? ==> Suitable(S(), suitable.value, size, alignment)
      ensures suitable.Some? <==> RunSuffices(S(), block, size, alignment)
    {
      hide Ok, P, AlignmentSlop, Linked, FreeRun, RunSuffices;
      ghost var s := S();
      PreviousOfFree(s, block);
      var firstFree, totalSize := LookBack(block, size, alignment);
      PreviousOfFree(s, firstFree);
      var firstSlop := AlignmentSlop(blocks[firstFree].baseAddr, alignment);
      var nextBlock := block + blocks[block].size;
      NextIsHead(s, block);
      while totalSize < size + firstSlop && blocks[nextBlock].linked
        invariant firstFree <= block < nextBlock < |blocks| == |owner| && owner[nextBlock] == nextBlock
        invariant totalSize == nextBlock - firstFree && FreeRun(s, firstFree, totalSize)
        invariant nextBlock != block + blocks[block].size ==>
                    firstFree == 0 || firstFree > |owner| || !P(s)[firstFree - 1].Free?
        decreases |blocks| - nextBlock
      {
        NextIsHead(s, nextBlock);
        totalSize := totalSize + blocks[nextBlock].size;
        RunOn(s, firstFree, nextBlock, totalSize);
        nextBlock := nextBlock + blocks[nextBlock].size;
      }
      if totalSize >= size + firstSlop {
        EnoughFree(s, firstFree, totalSize, size + firstSlop);
        EnoughAround(s, block, firstFree, totalSize, size, alignment);
        suitable := Some(firstFree);
      } else {
        TooFewAround(s, block, firstFree, nextBlock, size, alignment);
        suitable := None;
      }
    }

    static lemma EnoughAround(s: State, k: nat, first: nat, total: nat, size: nat, alignment: nat)
      requires Ok(s, |s.b|) && Linked(s, first) && alignment > 0
      requires FreeRun(s, first, total) && first <= k < first + total
      requires total >= size + AlignmentSlop(s.b[first].baseAddr, alignment)
      ensures RunSuffices(s, k, size, alignment)
    {
      hide Tiling, Cleared, Listed, Coalesced, Clean, Tags, Pages, Addressed, AlignmentSlop, RunSuffices;
      IsHead(s, |s.b|, first);
      PartSuffices(s, k, first, total, size, alignment);
    }

    static lemma TooFewAround(s: State, k: nat, first: nat, next: nat, size: nat, alignment: nat)
      requires Ok(s, |s.b|) && Linked(s, first) && alignment > 0 && first <= k < next < |s.b| == |s.o|
      requires FreeRun(s, first, next - first) && s.o[next] == next && !s.b[next].linked
      requires first == 0 || first > |s.o| || !P(s)[first - 1].Free?
      requires next - first < size + AlignmentSlop(s.b[first].baseAddr, alignment)
      ensures !RunSuffices(s, k, size, alignment)
    {
      hide Tiling, Cleared, Listed, Coalesced, Clean, Tags, Pages, Addressed, AlignmentSlop, RunSuffices;
      IsHead(s, |s.b|, first);
      FreeHead(s, |s.b|, next);
      RunTooSmall(s, k, first, next, size, alignment);
    }

    static lemma NextIsHead(s: State, k: nat)
      requires Ok(s, |s.b|) && k < |s.b| && s.b[k].linked
      ensures k + s.b[k].size < |s.b| == |s.o| && s.o[k + s.b[k].size] == k + s.b[k].size && s.b[k].size > 0
      ensures |P(s)| == |s.b| && forall j :: k <= j < k + s.b[k].size ==> P(s)[j].Free?
    {
      hide Tiling, Cleared, Listed, Addressed, Coalesced;
      IsHead(s, |s.b|, k);
      PagesAre(s, |s.b|, k);
    }

    static lemma RunOn(s: State, k: nat, m: nat, total: nat)
      requires m < |s.b| && k <= m && m + s.b[m].size <= |P(s)| && FreeRun(s, k, m - k) && total == m + s.b[m].size - k
      requires forall j :: m <= j < m + s.b[m].size ==> j < |P(s)| && P(s)[j].Free?
      ensures FreeRun(s, k, total)
    {
    }

    static lemma EnoughFree(s: State, k: nat, total: nat, size: nat)
      requires FreeRun(s, k, total) && size <= total
      ensures FreeRun(s, k, size)
    {
    }

    /** What the search knows of a block that it has passed. */
    ghost predicate PassedOver(s: State, k: nat, size: nat, alignment: nat, suitable: bool)
      requires alignment > 0
    {
      && k < |s.b| && (s.b[k].committed ==> !Fits(s.b, k, size, alignment))
      && (useVirtualMemory && Promising(s, k, size, alignment) ==> suitable)
    }

    ghost predicate ListPassed(s: State, i: nat, n: nat, size: nat, alignment: nat, suitable: bool)
      requires alignment > 0
    {
      i < |s.l| && n <= |s.l[i]| && forall q :: 0 <= q < n ==> PassedOver(s, s.l[i][q], size, alignment, suitable)
    }

    static lemma InList(s: State, i: nat, p: nat)
      requires Ok(s, |s.b|) && i < |s.l| && p < |s.l[i]|
      ensures Linked(s, s.l[i][p])
    {
      assert RightList(s.b[s.l[i][p]], i);
    }

    /** What the search knows of the decommitted block that it keeps, if any. */
    ghost predicate Found(s: State, first: nat, suitable: Option<nat>, size: nat, alignment: nat)
      requires alignment > 0
    {
      suitable.Some? ==>
        useVirtualMemory && Suitable(s, suitable.value, size, alignment) && SomePromising(s, first, size, alignment)
    }

    lemma FoundIn(s: State, first: nat, i: nat, q: nat, suitable: Option<nat>, size: nat, alignment: nat)
      requires alignment > 0 && useVirtualMemory && first <= i < |s.l| && q < |s.l[i]|
      requires suitable.Some? ==>
                 Suitable(s, suitable.value, size, alignment) && Promising(s, s.l[i][q], size, alignment)
      ensures Found(s, first, suitable, size, alignment)
    {
    }

    /** One list, up to the first committed block in which the request fits. */
    method ScanList(i: nat, size: nat, alignment: nat, suitable0: Option<nat>, ghost first: nat)
      returns (found: Option<nat>, suitable: Option<nat>, ghost p: nat)
      requires Ok(S(), |blocks|) && first <= i < |freelists| && size > 0 && alignment > 0
      requires Found(S(), first, suitable0, size, alignment)
      ensures Found(S(), first, suitable, size, alignment)
      ensures suitable0.Some? ==> suitable.Some?
      ensures ListPassed(S(), i, p, size, alignment, suitable.Some?)
      ensures found.None? ==> p == |freelists[i]|
      ensures found.Some? ==> p < |freelists[i]| && freelists[i][p] == found.value && Linked(S(), found.value)
      ensures found.Some? ==> blocks[found.value].committed && Fits(blocks, found.value, size, alignment)
    {
      hide Ok, Suitable, AlignmentSlop, Found, RunSuffices, SomePromising;
      found, suitable := None, suitable0;
      var q := 0;
      p := 0;
      while q < |freelists[i]|
        invariant p == q <= |freelists[i]|
        invariant Found(S(), first, suitable, size, alignment)
        invariant suitable0.Some? ==> suitable.Some?
        invariant ListPassed(S(), i, q, size, alignment, suitable.Some?)
      {
        var block := freelists[i][q];
        InList(S(), i, q);
        if blocks[block].committed && blocks[block].size >= size + AlignmentSlop(blocks[block].baseAddr, alignment) {
          found := Some(block);
          return;
        }
        if useVirtualMemory && suitable.None? && !blocks[block].committed {
          suitable := LookAround(block, size, alignment);
          FoundIn(S(), first, i, q, suitable, size, alignment);
        }
        q := q + 1;
        p := q;
      }
    }

    /** The search of AllocBlock. A committed block is the smallest in which the request fits. Only if there is none is
        a decommitted one used, with free blocks around it as needed; and only if the request fits into no run of
        free pages around a decommitted block, of those in the lists searched, is there nothing. */
    method FindBlock(size: nat, alignment: nat) returns (found: Option<nat>, suitable: Option<nat>)
      requires Ok(S(), |blocks|) && size > 0 && alignment > 0
      ensures found.Some? ==> BestFit(S(), found.value, size, alignment)
      ensures found.None? <==> NoneCommitted(S(), size, alignment)
      ensures found.None? && suitable.Some? ==> Suitable(S(), suitable.value, size, alignment)
      ensures found.Some? || suitable.Some? <==> CanMeet(S(), size, alignment)
      ensures found.None? && suitable.None? ==> NoneFits(S(), size, alignment)
    {
      hide Ok, Suitable, AlignmentSlop, ListPassed, GetFreeListIndex, BestFit, NoneCommitted, NoneFits, Linked, Fits,
           Found, CanMeet;
      var startList := GetFreeListIndex(size);
      suitable := None;
      var i := startList;
      ListCount(S(), size);
      NothingSeen(S(), startList, size, alignment);
      while i < NUM_FREE_LISTS
        invariant startList <= i <= NUM_FREE_LISTS == |freelists|
        invariant Found(S(), startList, suitable, size, alignment)
        invariant forall j :: startList <= j < i ==> ListPassed(S(), j, |freelists[j]|, size, alignment, suitable.Some?)
      {
        ghost var before := suitable.Some?;
        ghost var p;
        found, suitable, p := ScanList(i, size, alignment, suitable, startList);
        if found.Some? {
          FoundBest(S(), startList, i, p, size, alignment, before, suitable.Some?);
          return;
        }
        StillPassed(S(), startList, i, size, alignment, before, suitable.Some?);
        i := i + 1;
      }
      found := None;
      AllPassed(S(), size, alignment, suitable);
      if suitable.None? { NothingFits(S(), size, alignment); }
    }

    lemma NothingSeen(s: State, first: nat, size: nat, alignment: nat)
      requires alignment > 0
      ensures Found(s, first, None, size, alignment)
    {
    }

    /** The requests that the search can meet: some committed free block is large enough, or the free pages around some
        decommitted block that it looks at are. */
    ghost predicate CanMeet(s: State, size: nat, alignment: nat)
      requires size > 0 && alignment > 0
    {
      !NoneCommitted(s, size, alignment)
      || (useVirtualMemory && SomePromising(s, GetFreeListIndex(size), size, alignment))
    }

    static lemma ListCount(s: State, size: nat)
      requires Ok(s, |s.b|) && size > 0
      ensures |s.l| == NUM_FREE_LISTS == 30 && GetFreeListIndex(size) < 30
    {
      IndexMonotone(size, size);
    }

    static ghost predicate BestFit(s: State, k: nat, size: nat, alignment: nat)
      requires alignment > 0
    {
      && Linked(s, k) && s.b[k].committed && Fits(s.b, k, size, alignment)
      && forall m :: 0 <= m < |s.b| && s.b[m].linked && s.b[m].committed && Fits(s.b, m, size, alignment) ==>
           s.b[k].size <= s.b[m].size
    }

    static ghost predicate NoneCommitted(s: State, size: nat, alignment: nat)
      requires alignment > 0
    {
      forall m :: 0 <= m < |s.b| && s.b[m].linked && s.b[m].committed ==> !Fits(s.b, m, size, alignment)
    }

    ghost predicate NoneFits(s: State, size: nat, alignment: nat)
      requires alignment > 0
    {
      forall m :: 0 <= m < |s.b| && s.b[m].linked && (s.b[m].committed || useVirtualMemory) ==>
          !Fits(s.b, m, size, alignment)
    }

    lemma StillPassed(s: State, start: nat, i: nat, size: nat, alignment: nat, before: bool, after: bool)
      requires alignment > 0 && i <= |s.l| && (before ==> after)
      requires forall j :: start <= j < i ==> ListPassed(s, j, |s.l[j]|, size, alignment, before)
      ensures forall j :: start <= j < i ==> ListPassed(s, j, |s.l[j]|, size, alignment, after)
    {
      forall j | start <= j < i ensures ListPassed(s, j, |s.l[j]|, size, alignment, after) {
        assert ListPassed(s, j, |s.l[j]|, size, alignment, before);
      }
    }

    /** A free block in which the request fits is in one of the lists searched. */
    static lemma Searched(s: State, k: nat, size: nat, alignment: nat) returns (i: nat, p: nat)
      requires Ok(s, |s.b|) && Linked(s, k) && size > 0 && alignment > 0 && Fits(s.b, k, size, alignment)
      ensures GetFreeListIndex(size) <= i < |s.l| == 30 && p < |s.l[i]| && s.l[i][p] == k
      ensures s.b[k].size > 0 && (s.b[k].committed ==> i == GetFreeListIndex(s.b[k].size))
    {
      assert InSome(s.l, k);
      i :| 0 <= i < |s.l| && k in s.l[i];
      p :| 0 <= p < |s.l[i]| && s.l[i][p] == k;
      assert RightList(s.b[s.l[i][p]], i);
      IndexMonotone(size, s.b[k].size);
    }

    lemma FoundBest(s: State, start: nat, i: nat, p: nat, size: nat, alignment: nat, before: bool, after: bool)
      requires Ok(s, |s.b|) && size > 0 && alignment > 0 && start == GetFreeListIndex(size) <= i < |s.l| && p < |s.l[i]|
      requires Linked(s, s.l[i][p]) && s.b[s.l[i][p]].committed && Fits(s.b, s.l[i][p], size, alignment)
      requires forall j :: start <= j < i ==> ListPassed(s, j, |s.l[j]|, size, alignment, before)
      requires ListPassed(s, i, p, size, alignment, after)
      ensures BestFit(s, s.l[i][p], size, alignment)
      ensures !NoneCommitted(s, size, alignment) && CanMeet(s, size, alignment)
    {
      hide Ok, Fits, Promising;
      var k := s.l[i][p];
      forall m | 0 <= m < |s.b| && s.b[m].linked && s.b[m].committed && Fits(s.b, m, size, alignment)
        ensures s.b[k].size <= s.b[m].size
      {
        var j, q := Searched(s, m, size, alignment);
        assert j < i ==> ListPassed(s, j, |s.l[j]|, size, alignment, before);
        SmallerFirst(s, i, p, j, q);
      }
    }

    /** Committed blocks further on in the lists are no smaller. */
    static lemma SmallerFirst(s: State, i: nat, p: nat, j: nat, q: nat)
      requires Ok(s, |s.b|) && i <= j < |s.l| && p < |s.l[i]| && q < |s.l[j]|
      requires Linked(s, s.l[i][p]) && Linked(s, s.l[j][q])
      requires s.b[s.l[i][p]].committed && s.b[s.l[j][q]].committed && (j == i ==> p <= q)
      ensures s.b[s.l[i][p]].size <= s.b[s.l[j][q]].size
    {
      hide Tiles, Tags, Coalesced, Based, Addressed, Clean, Complete, Distinct;
      assert RightList(s.b[s.l[i][p]], i) && RightList(s.b[s.l[j][q]], j);
      assert Ordered(s.b, s.l[i]);
      if s.b[s.l[j][q]].size < s.b[s.l[i][p]].size {
        IndexMonotone(s.b[s.l[j][q]].size, s.b[s.l[i][p]].size);
      }
    }

    lemma AllPassed(s: State, size: nat, alignment: nat, suitable: Option<nat>)
      requires Ok(s, |s.b|) && size > 0 && alignment > 0
      requires Found(s, GetFreeListIndex(size), suitable, size, alignment)
      requires forall j :: GetFreeListIndex(size) <= j < |s.l| ==>
                 ListPassed(s, j, |s.l[j]|, size, alignment, suitable.Some?)
      ensures suitable.Some? ==> Suitable(s, suitable.value, size, alignment)
      ensures NoneCommitted(s, size, alignment) && (suitable.Some? <==> CanMeet(s, size, alignment))
    {
      hide Ok, Fits, Suitable, Promising, GetFreeListIndex;
      forall m | 0 <= m < |s.b| && s.b[m].linked && Fits(s.b, m, size, alignment)
        ensures PassedOver(s, m, size, alignment, suitable.Some?)
      {
        var j, q := Searched(s, m, size, alignment);
        assert ListPassed(s, j, |s.l[j]|, size, alignment, suitable.Some?);
      }
      if suitable.None? && useVirtualMemory {
        forall i, q | GetFreeListIndex(size) <= i < |s.l| && 0 <= q < |s.l[i]|
          ensures !Promising(s, s.l[i][q], size, alignment)
        {
          assert ListPassed(s, i, |s.l[i]|, size, alignment, false);
        }
      }
    }

    /** What fits into a single free block can be met. */
    lemma NothingFits(s: State, size: nat, alignment: nat)
      requires Ok(s, |s.b|) && size > 0 && alignment > 0 && !CanMeet(s, size, alignment)
      ensures NoneFits(s, size, alignment)
    {
      hide Ok, Fits, Promising, GetFreeListIndex;
      forall m | 0 <= m < |s.b| && s.b[m].linked && useVirtualMemory ensures !Fits(s.b, m, size, alignment) {
        if Fits(s.b, m, size, alignment) {
          var j, q := Searched(s, m, size, alignment);
          FitsPromises(s, m, size, alignment);
        }
      }
    }

    /** When a run of free pages is missed that is large enough: all its decommitted blocks are smaller than the
        request, and in lists before the first one that is searched. */
    lemma WhenMissed(s: State, lo: nat, hi: nat, k: nat, size: nat, alignment: nat)
      requires Ok(s, |s.b|) && size > 0 && alignment > 0 && useVirtualMemory && !CanMeet(s, size, alignment)
      requires WholeRun(P(s), lo, hi) && LargeRun(s, lo, hi, size, alignment)
      requires lo <= k < hi && Linked(s, k) && !s.b[k].committed
      ensures GetFreeListIndex(s.b[k].size) < GetFreeListIndex(size) && s.b[k].size < size
    {
      hide Tiles, Tags, Coalesced, Based, Addressed, Clean, Distinct, Ordered, LargeRun, WholeRun, GetFreeListIndex, P;
      assert Promising(s, k, size, alignment);
      assert InSome(s.l, k);
      var i :| 0 <= i < |s.l| && k in s.l[i];
      var q :| 0 <= q < |s.l[i]| && s.l[i][q] == k;
      assert RightList(s.b[s.l[i][q]], i);
      IndexMonotone(size, size);
      if s.b[k].size >= size { IndexMonotone(size, s.b[k].size); }
    }

    /** A decommitted page next to a committed one, both in the list for single pages. */
    static ghost function TwoPages(): State {
      State([HeapBlock(1, 1, 0, true, false, false), HeapBlock(2, 1, 1, true, true, false),
             CLEARED.(sizePrevious := 1)],
            seq(30, i => if i == 0 then [0, 1] else []), [0, 1, 2], [1, 2, 0], [true, true, true])
    }

    static lemma TwoPagesTile()
      ensures var s := TwoPages(); Tiles(s.b, s.o) && Tags(s.b, s.o, 3) && P(s) == [Free(false), Free(true), Sentinel]
    {
      hide Tiling, Pages, Sizes;
      var s := TwoPages();
      assert Sizes(s.b) == [1, 1, 0];
      OneByOne([1, 1, 0], s.o);
      assert TagAt(s.b, s.o, 0) && TagAt(s.b, s.o, 1) && TagAt(s.b, s.o, 2);
      assert P(s) == [PageOf(s.b, s.o, 0), PageOf(s.b, s.o, 1), PageOf(s.b, s.o, 2)];
    }

    static lemma OneByOne(z: seq<nat>, o: seq<nat>)
      requires |z| == |o| && forall j :: 0 <= j < |o| ==> o[j] == j && z[j] <= 1 && j + z[j] < |o|
      ensures Tiling(z, o)
    {
    }

    static lemma TwoPagesListed()
      ensures var s := TwoPages(); Listed(s.b, s.l)
    {
      hide Placed, Complete, Distinct, Ordered;
      var s := TwoPages();
      SinglesListed(s.b, s.l);
    }

    /** Blocks of one page, all in the first list. */
    static lemma SinglesListed(b: seq<HeapBlock>, l: seq<seq<nat>>)
      requires |b| == 3 && b[0].linked && b[1].linked && !b[2].linked && b[0].size == b[1].size == 1
      requires |l| == 30 && l[0] == [0, 1] && forall i :: 0 < i < 30 ==> l[i] == []
      ensures Placed(b, l) && Complete(b, l) && Distinct(l) && forall i :: 0 <= i < 30 ==> Ordered(b, l[i])
    {
      assert Placed(b, l) by { assert GetFreeListIndex(1) == 0; }
      assert Complete(b, l) by { assert 0 in l[0] && 1 in l[0]; }
    }

    static lemma TwoPagesSmall()
      ensures forall m :: 0 <= m < 3 ==> !Fits(TwoPages().b, m, 2, 1)
      ensures LargeRun(TwoPages(), 0, 2, 2, 1)
    {
    }

    /** What fits into a run of free pages may not be met, if no decommitted block of the run is in a list that is
        searched. Two pages are free in the heap above, but the search for two starts behind the list they are in. */
    lemma RunMissed()
      ensures Ok(TwoPages(), 3) && WholeRun(P(TwoPages()), 0, 2) && LargeRun(TwoPages(), 0, 2, 2, 1)
      ensures !CanMeet(TwoPages(), 2, 1)
    {
      hide Tiles, Tags, Listed, Pages, Fits;
      var s := TwoPages();
      TwoPagesTile();
      TwoPagesListed();
      TwoPagesSmall();
      assert forall i :: 1 <= i < 30 ==> s.l[i] == [];
    }

    static lemma FitsPromises(s: State, k: nat, size: nat, alignment: nat)
      requires Ok(s, |s.b|) && Linked(s, k) && alignment > 0 && Fits(s.b, k, size, alignment)
      ensures !s.b[k].committed ==> Promising(s, k, size, alignment)
    {
      hide Ok, P, AlignmentSlop, RunSuffices;
      LinkedPages(s, |s.b|, k);
      EnoughAround(s, k, k, s.b[k].size, size, alignment);
    }

    // ----- AllocBlock

    method AllocBlock(size: nat, zero0: bool, alignment: nat) returns (block: Option<nat>, needsZero: bool)
      requires Ok(S(), |blocks|) && size > 0 && alignment > 0
      modifies `blocks, `freelists, `owner
      ensures Ok(S(), |blocks|) && |blocks| == old(|blocks|)
      ensures block.Some? <==> CanMeet(old(S()), size, alignment)
      ensures block.None? ==> S() == old(S()) && NoneFits(old(S()), size, alignment)
      ensures block.Some? ==>
                Allocated(old(S()), S(), block.value, size) && blocks[block.value].baseAddr % alignment == 0
      ensures block.Some? && !old(NoneCommitted(S(), size, alignment)) ==>
                exists k :: BestFit(old(S()), k, size, alignment)
                    && FromCommitted(old(S()), S(), k, block.value, size, alignment)
      ensures block.Some? && old(NoneCommitted(S(), size, alignment)) ==>
                exists k, n :: FromRun(old(S()), S(), k, n, block.value, size, alignment)
      ensures block.Some? && zero0 && !needsZero ==> ZeroOn(zero, block.value, block.value + size)
      ensures needsZero ==> zero0
    {
      hide Ok, P, Suitable, BestFit, NoneCommitted, NoneFits, CanMeet, Allocated, FromCommitted, FromRun,
           AlignmentSlop;
      ghost var s := S();
      var found, suitable := FindBlock(size, alignment);
      if found.Some? {
        var r, z := AllocFound(found.value, size, zero0, alignment);
        assert BestFit(s, found.value, size, alignment) && FromCommitted(s, S(), found.value, r, size, alignment);
        return Some(r), z;
      }
      if suitable.Some? {
        var r, z := AllocSuitable(suitable.value, size, zero0, alignment);
        ghost var n :| FromRun(s, S(), suitable.value, n, r, size, alignment);
        return Some(r), z;
      }
      return None, false;
    }

    /** The request was met from the committed block at k alone. */
    static ghost predicate FromCommitted(s: State, s': State, k: nat, r: nat, size: nat, alignment: nat)
      requires alignment > 0
    {
      k < |s.b| && r == k + AlignmentSlop(s.b[k].baseAddr, alignment) && P(s') == Paint(P(s), r, r + size, Used(r))
    }

    /** The request was met from the n pages from the free block at k on, no more than needed for it; what is left of
        them is free and committed now. */
    static ghost predicate FromRun(s: State, s': State, k: nat, n: nat, r: nat, size: nat, alignment: nat)
      requires alignment > 0
    {
      && Linked(s, k) && r == k + AlignmentSlop(s.b[k].baseAddr, alignment)
      && NoMoreThanNeeded(P(s), k, r + size - k, n)
      && P(s') == Paint(Paint(P(s), k, k + n, Free(true)), r, r + size, Used(r))
    }

    method AllocFound(block0: nat, size: nat, zero0: bool, alignment: nat) returns (block: nat, needsZero: bool)
      requires Ok(S(), |blocks|) && size > 0 && alignment > 0 && BestFit(S(), block0, size, alignment)
      modifies `blocks, `freelists, `owner
      ensures Ok(S(), |blocks|) && |blocks| == old(|blocks|) && block < |blocks|
      ensures Allocated(old(S()), S(), block, size) && blocks[block].baseAddr % alignment == 0
      ensures FromCommitted(old(S()), S(), block0, block, size, alignment)
      ensures zero0 && !needsZero ==> ZeroOn(zero, block, block + size)
      ensures needsZero ==> zero0
    {
      hide Ok, P, Allocated, AlignmentSlop, Kept, CleanAt, FromCommitted;
      ghost var s := S();
      LinkedPages(s, |blocks|, block0);
      RemoveFromList(block0, |blocks|);
      ghost var s1 := S();
      block, needsZero := AllocCommittedBlock(block0, size, zero0, alignment);
      FoundDone(s, s1, S(), block0, block, size, alignment);
    }

    static lemma FoundDone(s: State, s1: State, s2: State, k: nat, r: nat, size: nat, alignment: nat)
      requires Ok(s, |s.b|) && Linked(s, k) && s.b[k].committed && size > 0 && alignment > 0
      requires r == k + AlignmentSlop(s.b[k].baseAddr, alignment) && r + size <= k + s.b[k].size
      requires Kept(s, s1, {k}) && Kept(s1, s2, {k}) && P(s1) == Paint(P(s), k, k + s.b[k].size, Used(k))
      requires P(s2) == Paint(Paint(P(s1), k, k + s.b[k].size, Free(true)), r, r + size, Used(r))
      requires Taken(s2, r) && s2.b[r].size == size && s2.b[r].committed
      ensures Allocated(s, s2, r, size) && FromCommitted(s, s2, k, r, size, alignment)
    {
      hide Ok, Pages, AlignmentSlop, Kept;
      LinkedPages(s, |s.b|, k);
      KeptBoth(s, s1, s2, {k}, {k});
      KeptOnly(s, s2, {k} + {k}, {});
      assert Paint(P(s1), k, k + s.b[k].size, Free(true)) == P(s);
    }

    method AllocSuitable(block0: nat, size: nat, zero0: bool, alignment: nat) returns (block: nat, needsZero: bool)
      requires Ok(S(), |blocks|) && size > 0 && alignment > 0
      requires Suitable(S(), block0, size, alignment) && NoneCommitted(S(), size, alignment)
      modifies `blocks, `freelists, `owner
      ensures Ok(S(), |blocks|) && |blocks| == old(|blocks|) && block < |blocks|
      ensures Allocated(old(S()), S(), block, size) && blocks[block].baseAddr % alignment == 0
      ensures exists n :: FromRun(old(S()), S(), block0, n, block, size, alignment)
      ensures zero0 && !needsZero ==> ZeroOn(zero, block, block + size)
      ensures needsZero ==> zero0
    {
      hide Ok, P, Allocated, AlignmentSlop, Kept, CleanAt, Suitable, NoneCommitted, InHand, FreeRun, NoMoreThanNeeded,
           FromRun;
      ghost var s := S();
      SuitableIs(s, block0, size, alignment);
      CreateCommittedBlock(block0, size, alignment);
      ghost var s1 := S();
      NeededSuffices(P(s), block0, size + AlignmentSlop(s.b[block0].baseAddr, alignment), blocks[block0].size);
      SlopSafe(s, s1, block0, size, alignment);
      block, needsZero := AllocCommittedBlock(block0, size, zero0, alignment);
      SuitableDone(s, s1, S(), block0, block, size, alignment);
      assert FromRun(s, S(), block0, s1.b[block0].size, block, size, alignment);
    }

    static lemma NeededSuffices(p: seq<Page>, k: nat, request: nat, n: nat)
      requires NoMoreThanNeeded(p, k, request, n)
      ensures n >= request
    {
    }

    static lemma SuitableIs(s: State, k: nat, size: nat, alignment: nat)
      requires alignment > 0 && Suitable(s, k, size, alignment) && NoneCommitted(s, size, alignment)
      ensures Linked(s, k) && FreeRun(s, k, size + AlignmentSlop(s.b[k].baseAddr, alignment))
      ensures !(s.b[k].committed && s.b[k].size >= size + AlignmentSlop(s.b[k].baseAddr, alignment))
    {
      assert s.b[k].committed ==> !Fits(s.b, k, size, alignment);
    }

    /** The dirty mark that the freed slop may lose on merging does not matter: the slop has just been committed. */
    static lemma SlopSafe(s: State, s1: State, k: nat, size: nat, alignment: nat)
      requires alignment > 0 && Ok(s, |s.b|) && Suitable(s, k, size, alignment) && InHand(s, s1, k)
      ensures k < |s.b| && s1.b[k].baseAddr == s.b[k].baseAddr
      ensures k == 0 || k > |s1.o| || P(s1)[k - 1] != Free(true)
              || ZeroOn(s1.zero, k, k + AlignmentSlop(s.b[k].baseAddr, alignment))
    {
      hide Ok, AlignmentSlop;
      LinkedPages(s, |s.b|, k);
      IsClean(s, |s.b|, k);
    }

    static lemma IsClean(s: State, loose: nat, k: nat)
      requires Ok(s, loose) && Linked(s, k)
      ensures CleanAt(s.b, s.zero, k)
    {
    }

    static lemma SuitableDone(s: State, s1: State, s2: State, k: nat, r: nat, size: nat, alignment: nat)
      requires Ok(s, |s.b|) && Linked(s, k) && size > 0 && alignment > 0 && InHand(s, s1, k)
      requires r == k + AlignmentSlop(s.b[k].baseAddr, alignment) && r + size <= k + s1.b[k].size
      requires Kept(s1, s2, {k})
      requires P(s2) == Paint(Paint(P(s1), k, k + s1.b[k].size, Free(true)), r, r + size, Used(r))
      requires Taken(s2, r) && s2.b[r].size == size && s2.b[r].committed
      requires NoMoreThanNeeded(P(s), k, size + AlignmentSlop(s.b[k].baseAddr, alignment), s1.b[k].size)
      ensures Allocated(s, s2, r, size) && FromRun(s, s2, k, s1.b[k].size, r, size, alignment)
    {
      hide Ok, Pages, AlignmentSlop, Kept, NoMoreThanNeeded;
      KeptBoth(s, s1, s2, {k}, {k});
      KeptOnly(s, s2, {k} + {k}, {});
    }

    // ----- Decommit

    /** Behind all committed blocks, and in order of size among the decommitted ones. */
    method BackOfTheBus(block: nat, ghost loose: nat) returns (p: nat)
      requires Ok(S(), loose) && Taken(S(), block) && !blocks[block].committed
      ensures NUM_FREE_LISTS - 1 < |freelists| && p <= |freelists[NUM_FREE_LISTS - 1]|
      ensures Fitting(blocks, freelists[NUM_FREE_LISTS - 1], p, block)
      ensures RightList(blocks[block].(linked := true), NUM_FREE_LISTS - 1)
    {
      hide Ok, Fitting, RightList;
      LastList(S(), loose, block);
      var backOfTheBus := freelists[NUM_FREE_LISTS - 1];
      p := 0;
      while p < |backOfTheBus|
          && !(blocks[backOfTheBus[p]].size >= blocks[block].size && !blocks[backOfTheBus[p]].committed)
        invariant p <= |backOfTheBus|
      {
        p := p + 1;
      }
      BackInOrder(S(), loose, block, p);
    }

    static lemma LastList(s: State, loose: nat, k: nat)
      requires Ok(s, loose) && Taken(s, k) && !s.b[k].committed
      ensures |s.l| == NUM_FREE_LISTS == 30 && RightList(s.b[k].(linked := true), 29)
      ensures forall q :: 0 <= q < |s.l[29]| ==> s.l[29][q] < |s.b|
    {
    }

    static lemma BackInOrder(s: State, loose: nat, k: nat, p: nat)
      requires Ok(s, loose) && Taken(s, k) && !s.b[k].committed && |s.l| == 30 && p <= |s.l[29]|
      requires forall q :: 0 <= q < |s.l[29]| ==> s.l[29][q] < |s.b|
      requires p < |s.l[29]| ==> s.b[s.l[29][p]].size >= s.b[k].size
      ensures Fitting(s.b, s.l[29], p, k)
    {
      hide Tiles, Tags, Coalesced, Based, Addressed, Clean, Complete, Distinct, Placed;
      assert Ordered(s.b, s.l[29]);
    }

    method ReleaseToBack(block: nat, ghost loose: nat)
      requires Ok(S(), loose) && Taken(S(), block) && !blocks[block].committed && Apart(S(), block, false)
      requires Trusted(S(), block, false) && (loose == block + blocks[block].size || loose == |blocks|)
      modifies `blocks, `freelists
      ensures |blocks| == old(|blocks|) && Ok(S(), |blocks|)
      ensures P(S()) == Paint(old(P(S())), block, block + old(blocks[block].size), Free(false))
      ensures Kept(old(S()), S(), {block})
    {
      hide Ok, Kept, Fitting, RightList, Apart, CleanAt, P, Taken, Trusted;
      ghost var s := S();
      TakenIs(s, block);
      BackParts(s, loose, block);
      var nextBlock := block + blocks[block].size;
      blocks := blocks[nextBlock := blocks[nextBlock].(sizePrevious := blocks[block].size)];
      ghost var s2 := S();
      var p := BackOfTheBus(block, |blocks|);
      LinkOk(s2, |blocks|, block, NUM_FREE_LISTS - 1, p);
      freelists := freelists[NUM_FREE_LISTS - 1 := Inserted(freelists[NUM_FREE_LISTS - 1], p, block)];
      blocks := blocks[block := blocks[block].(linked := true)];
      KeptBoth(s, s2, S(), {}, {block});
      assert {} + {block} == {block};
    }

    static lemma BackParts(s: State, loose: nat, k: nat)
      requires Ok(s, loose) && Taken(s, k) && Apart(s, k, false) && Trusted(s, k, false) && !s.b[k].committed
      requires loose == k + s.b[k].size || loose == |s.b|
      ensures k + s.b[k].size < |s.b|
      ensures var s1 := Fix(s, k);
        && Ok(s1, |s.b|) && Taken(s1, k) && Kept(s, s1, {}) && P(s1) == P(s)
        && CleanAt(s1.b, s1.zero, k) && Apart(s1, k, false) && s1.b[k] == s.b[k]
    {
      hide Ok, Kept, Pages;
      FixOk(s, loose, k);
    }

    /** The pages of a decommitted block become free; decommitted free neighbours merge with it. */
    method FreeDecommitted(block: nat)
      requires Ok(S(), |blocks|) && Taken(S(), block) && !blocks[block].committed
      requires ZeroOn(zero, block, block + blocks[block].size)
      modifies `blocks, `freelists, `owner
      ensures |blocks| == old(|blocks|) && Ok(S(), |blocks|)
      ensures P(S()) == Paint(old(P(S())), block, block + old(blocks[block].size), Free(false))
      ensures Kept(old(S()), S(), {block})
    {
      hide Ok, Kept, Apart, P, Taken, Trusted, Honest, TookIn;
      ghost var s := S();
      TakenIs(s, block);
      ZeroHonest(s, block);
      var block', marked, l := CoalescePrevious(block, false);
      ghost var s1 := S();
      TookTaken(s, s1, block, block', block + s.b[block].size);
      var marked', l' := CoalesceNext(block', marked, l);
      ghost var s2 := S();
      TookBoth(s, s1, s2, block, block');
      ZeroTrusted(s2, block', marked');
      ReleaseToBack(block', l');
      Freed(s, s2, S(), block, block');
    }

    static lemma ZeroHonest(s: State, k: nat)
      requires k < |s.b| && ZeroOn(s.zero, k, k + s.b[k].size)
      ensures Honest(s, k, false)
    {
    }

    /** For a decommitted block the mark is of no account. */
    static lemma ZeroTrusted(s: State, k: nat, makeDirty: bool)
      requires k < |s.b| && !s.b[k].committed && Trusted(s, k, makeDirty)
      ensures Trusted(s, k, false)
    {
    }

    /** A free block, or as much of it as is wanted, in hand. */
    method TakeFree(block: nat, size: nat)
      requires Ok(S(), |blocks|) && Linked(S(), block) && blocks[block].committed && size > 0
      modifies `blocks, `freelists, `owner
      ensures |blocks| == old(|blocks|) && Ok(S(), |blocks|) && Taken(S(), block) && Kept(old(S()), S(), {block})
      ensures blocks[block].size == Min(old(blocks[block].size), size) && blocks[block].committed
      ensures blocks[block].baseAddr == old(blocks[block].baseAddr) && CleanAt(blocks, zero, block)
      ensures P(S()) == Paint(old(P(S())), block, block + blocks[block].size, Used(block))
    {
      hide Ok, Kept, P, Taken, CleanAt;
      ghost var s := S();
      LinkedPages(s, |blocks|, block);
      RemoveFromList(block, |blocks|);
      ghost var s1 := S();
      TakenIs(s1, block);
      if blocks[block].size > size {
        CutBack(block, size);
      } else {
        SameBack(s1, block);
      }
      TakenIs(S(), block);
      FreeTaken(s, s1, S(), block);
    }

    static lemma FreeTaken(s: State, s1: State, s2: State, k: nat)
      requires Ok(s, |s.b|) && Linked(s, k) && s.b[k].committed && k < |s2.b|
      requires Kept(s, s1, {k}) && Kept(s1, s2, {k}) && k < |s1.b| && s2.b[k].size <= s1.b[k].size <= s.b[k].size
      requires P(s1) == Paint(P(s), k, k + s1.b[k].size, Used(k))
      requires P(s2) == Paint(P(s1), k + s2.b[k].size, k + s1.b[k].size, Free(true))
      ensures Kept(s, s2, {k}) && P(s2) == Paint(P(s), k, k + s2.b[k].size, Used(k))
    {
      hide Ok, Pages, Kept;
      LinkedPages(s, |s.b|, k);
      KeptBoth(s, s1, s2, {k}, {k});
      assert {k} + {k} == {k};
    }

    /** The pages go back to the operating system, and come back as zeroes when they are committed again. */
    method ReleasePages(block: nat)
      requires Ok(S(), |blocks|) && Taken(S(), block)
      modifies `blocks, `zero
      ensures |blocks| == old(|blocks|) && Ok(S(), |blocks|) && Taken(S(), block) && P(S()) == old(P(S()))
      ensures blocks == old(blocks)[block := old(blocks[block]).(committed := false, dirty := false)]
      ensures Kept(old(S()), S(), {block}) && ZeroOn(zero, block, block + blocks[block].size)
    {
      hide Ok, Kept;
      SetFlagsOk(S(), |blocks|, block, false, false);
      TakenPages(S(), |blocks|, block);
      ghost var s := S();
      blocks := blocks[block := blocks[block].(committed := false, dirty := false)];
      ghost var s1 := S();
      ZeroLength(s1, |blocks|);
      ghost var z := Zeroed(zero, block, block + blocks[block].size);
      WriteOk(s1, |blocks|, z);
      zero := z;
      KeptZero(s, s1, z, {block});
    }

    static ghost function Zeroed(zero: seq<bool>, from: nat, to: nat): (z: seq<bool>)
      ensures |z| == |zero| && forall j :: 0 <= j < |zero| ==> z[j] == (from <= j < to || zero[j])
    {
      seq(|zero|, j requires 0 <= j < |zero| => from <= j < to || zero[j])
    }

    static lemma ZeroLength(s: State, loose: nat)
      requires Ok(s, loose)
      ensures |s.zero| == |s.b| == |P(s)|
    {
    }

    static lemma KeptZero(s: State, s1: State, z: seq<bool>, x: set<nat>)
      requires Kept(s, s1, x) && |z| == |s1.zero|
      ensures Kept(s, s1.(zero := z), x)
    {
    }

    static lemma Decommitted(s: State, s1: State, s2: State, s3: State, k: nat)
      requires Ok(s, |s.b|) && Linked(s, k) && s.b[k].committed && k < |s1.b|
      requires Kept(s, s1, {k}) && Kept(s1, s2, {k}) && Kept(s2, s3, {k})
      requires s1.b[k].size <= s.b[k].size && P(s1) == Paint(P(s), k, k + s1.b[k].size, Used(k))
      requires P(s2) == P(s1) && P(s3) == Paint(P(s2), k, k + s1.b[k].size, Free(false))
      ensures Kept(s, s3, {}) && P(s3) == Paint(P(s), k, k + s1.b[k].size, Free(false))
    {
      hide Ok, Pages, Kept;
      LinkedPages(s, |s.b|, k);
      KeptBoth(s, s1, s2, {k}, {k});
      KeptBoth(s, s2, s3, {k} + {k}, {k});
      KeptOnly(s, s3, {k} + {k} + {k}, {});
    }

    /** All committed free blocks are in the first n lists. */
    static ghost predicate CommittedBelow(s: State, n: nat) {
      forall k :: 0 <= k < |s.b| && s.b[k].linked && s.b[k].committed && s.b[k].size > 0 ==>
          GetFreeListIndex(s.b[k].size) < n
    }

    static lemma AllBelow(s: State)
      ensures CommittedBelow(s, NUM_FREE_LISTS)
    {
      forall k | 0 <= k < |s.b| && s.b[k].size > 0 ensures GetFreeListIndex(s.b[k].size) < NUM_FREE_LISTS {
        IndexMonotone(s.b[k].size, s.b[k].size);
      }
    }

    static lemma StillBelow(s: State, s': State, block: nat, n: nat)
      requires Ok(s, |s.b|) && Ok(s', |s'.b|) && Linked(s, block) && s.b[block].committed && CommittedBelow(s, n)
      requires P(s') == Paint(P(s), block, block + s.b[block].size, Free(false))
      ensures CommittedBelow(s', n)
    {
      hide Ok, P;
      forall k | 0 <= k < |s'.b| && s'.b[k].linked && s'.b[k].committed && s'.b[k].size > 0
        ensures GetFreeListIndex(s'.b[k].size) < n
      {
        SameRun(s, s', block, k);
      }
    }

    /** Nothing changes but that some committed free pages are decommitted. */
    static ghost predicate OnlyDecommitted(p: seq<Page>, p': seq<Page>, n: nat) {
      && |p'| == |p|
      && (forall j :: 0 <= j < |p| && p'[j] != p[j] ==> p[j] == Free(true) && p'[j] == Free(false))
      && Count(p', Free(true)) + n == Count(p, Free(true)) && Count(p', Free(false)) == Count(p, Free(false)) + n
    }

    static lemma MoreDecommitted(p: seq<Page>, p1: seq<Page>, p2: seq<Page>, n: nat, k: nat, e: nat)
      requires OnlyDecommitted(p, p1, n) && k <= e <= |p| && p2 == Paint(p1, k, e, Free(false))
      requires forall j :: k <= j < e ==> p1[j] == Free(true)
      ensures OnlyDecommitted(p, p2, n + (e - k))
    {
      CountPaint(p1, k, e, Free(true), Free(false));
    }

    static lemma NothingYet(s: State)
      ensures OnlyDecommitted(P(s), P(s), 0)
      ensures |s.o| == |s.b| ==> Kept(s, s, {})
      ensures Ok(s, |s.b|) ==> |s.o| == |s.b|
    {
    }

    static lemma NoFreeCommitted(s: State)
      requires Ok(s, |s.b|) && CommittedBelow(s, 0)
      ensures forall j :: 0 <= j < |P(s)| ==> P(s)[j] != Free(true)
    {
      hide Tiling, Coalesced, Based, Addressed, Listed;
      forall j | 0 <= j < |P(s)| ensures P(s)[j] != Free(true) {
        OwnerIsHead(s.b, s.o, j);
      }
    }

    // ----- Whole runs

    ghost predicate Sound()
      reads this
    {
      Ok(S(), |blocks|) && AllCommitted(S()) && Unshared(addr)
    }

    ghost predicate Valid()
      reads this
    {
      Sound() && RegionsOk(addr, regions) && (!useVirtualMemory ==> Exact(regions))
    }

    /** An empty heap. */
    constructor (useVirtualMemory: bool, sloppyCommit: bool)
      ensures Valid() && blocks == [] && regions == [] && this.useVirtualMemory == useVirtualMemory
      ensures this.sloppyCommit == sloppyCommit
    {
      hide Ok, AllCommitted, Unshared, RegionsOk;
      this.useVirtualMemory, this.sloppyCommit := useVirtualMemory, sloppyCommit;
      blocks, owner, addr, zero, regions := [], [], [], [], [];
      freelists := seq(NUM_FREE_LISTS, i => []);
      new;
      EmptyHeap(S());
      NoRegions();
    }

    static lemma EmptyHeap(s: State)
      requires s.b == [] && s.o == [] && s.addr == [] && s.zero == []
      requires |s.l| == NUM_FREE_LISTS && forall i :: 0 <= i < |s.l| ==> s.l[i] == []
      ensures Ok(s, |s.b|) && AllCommitted(s) && Unshared(s.addr)
    {
      hide Pages;
      assert Sizes(s.b) == [] && P(s) == [];
      EmptyLists(s.b, s.l);
    }

    static lemma EmptyLists(b: seq<HeapBlock>, l: seq<seq<nat>>)
      requires b == [] && |l| == NUM_FREE_LISTS && forall i :: 0 <= i < |l| ==> l[i] == []
      ensures Listed(b, l)
    {
    }

    /** Blocks in use do not overlap, neither in the array nor in memory. */
    lemma LiveDisjoint(j: nat, k: nat)
      requires Valid() && Taken(S(), j) && Taken(S(), k) && j < k
      ensures j + blocks[j].size <= k
      ensures blocks[j].baseAddr + blocks[j].size <= blocks[k].baseAddr
              || blocks[k].baseAddr + blocks[k].size <= blocks[j].baseAddr
    {
      hide Listed, Clean, Coalesced, Addressed, Tags, Cleared, Tiling;
      var s := S();
      if k < j + blocks[j].size { InBlock(s.b, s.o, j, k); }
      PagesAre(s, |blocks|, j);
      PagesAre(s, |blocks|, k);
      var a, c := blocks[j].baseAddr, blocks[k].baseAddr;
      if a <= c < a + blocks[j].size { SharedPage(j, k, j + (c - a), k); }
      if c <= a < c + blocks[k].size { SharedPage(j, k, j, k + (a - c)); }
    }

    /** The region that reserves the page, if there is one. */
    method AddrToRegion(item: nat) returns (region: Option<nat>)
      requires Valid()
      ensures region.Some? ==> region.value < |regions| && In(regions[region.value], item)
      ensures forall i :: 0 <= i < |regions| && In(regions[i], item) ==> region == Some(i)
    {
      hide Sound, RegionsOk;
      var i := |regions|;
      while i > 0
        invariant 0 <= i <= |regions| && forall j :: i <= j < |regions| ==> !In(regions[j], item)
      {
        i := i - 1;
        if In(regions[i], item) {
          forall j | 0 <= j < |regions| && In(regions[j], item) ensures j == i {
            OneRegion(addr, regions, i, j, item);
          }
          return Some(i);
        }
      }
      return None;
    }

    /** The page is not one that a region has reserved but not committed: such a page has no slot. */
    predicate NotJustReserved(item: nat)
      reads `regions
    {
      forall i :: 0 <= i < |regions| && In(regions[i], item) ==> item < regions[i].commitTop
    }

    /** The slot of a page; for the first page of a block, that is the block. */
    method BaseAddrToBlock(item: nat) returns (block: Option<nat>)
      requires Valid() && NotJustReserved(item)
      ensures block.Some? ==> block.value < |addr| == |blocks| && addr[block.value] == item > 0
      ensures forall j :: 0 <= j < |addr| && addr[j] == item > 0 ==> block == Some(j)
      ensures forall k: nat :: k < |blocks| && Taken(S(), k) && blocks[k].baseAddr == item ==> block == Some(k)
    {
      hide Ok, RegionsOk, AllCommitted, Taken, P;
      Lengths(S());
      var region := AddrToRegion(item);
      if region.None? {
        NowhereElse(item);
        return None;
      }
      var r := regions[region.value];
      SlotOfPage(addr, regions, region.value, item);
      block := Some(r.blockId + (item - r.baseAddr));
      forall k: nat | k < |blocks| && Taken(S(), k) && blocks[k].baseAddr == item
        ensures k == block.value
      {
        FirstPage(S(), k);
      }
    }

    /** A page that no region reserves has no slot. */
    lemma NowhereElse(item: nat)
      requires Valid() && forall i :: 0 <= i < |regions| ==> !In(regions[i], item)
      ensures forall j :: 0 <= j < |addr| && addr[j] > 0 ==> addr[j] != item
      ensures forall k: nat :: k < |blocks| && Taken(S(), k) ==> blocks[k].baseAddr != item
    {
      hide Ok, AllCommitted, Taken, P, Mapped, Disjoint, Chained;
      forall j | 0 <= j < |addr| && addr[j] > 0 ensures addr[j] != item {
        var i := PageInRegion(addr, regions, j);
        assert Mapped(addr, regions[i]);
        ReservesMore(addr, regions[i]);
      }
      forall k: nat | k < |blocks| && Taken(S(), k)
        ensures k < |addr| && blocks[k].baseAddr != item
      {
        FirstPage(S(), k);
      }
    }

    static lemma FirstPage(s: State, k: nat)
      requires Ok(s, |s.b|) && Taken(s, k)
      ensures k < |s.addr| == |s.b| && s.addr[k] == s.b[k].baseAddr > 0
    {
      hide Tiling, Cleared, Tags, Listed, Clean, Coalesced;
      PagesAre(s, |s.b|, k);
    }

    /** The block that a page is part of, by stepping back over the slots inside it. */
    method InteriorAddrToBlock(item: nat) returns (block: Option<nat>)
      requires Valid() && NotJustReserved(item)
      ensures block.Some? ==>
                && block.value < |blocks|
                && blocks[block.value].baseAddr <= item < blocks[block.value].baseAddr + blocks[block.value].size
      ensures block.None? ==> forall j :: 0 <= j < |addr| && addr[j] > 0 ==> addr[j] != item
      ensures forall k: nat ::
                k < |blocks| && Taken(S(), k) && blocks[k].baseAddr <= item < blocks[k].baseAddr + blocks[k].size ==>
                  block == Some(k)
    {
      hide Ok, RegionsOk, AllCommitted, Taken, P;
      Lengths(S());
      var region := AddrToRegion(item);
      if region.None? {
        NowhereElse(item);
        forall k: nat | k < |blocks| && Taken(S(), k)
          ensures !(blocks[k].baseAddr <= item < blocks[k].baseAddr + blocks[k].size)
        {
          if blocks[k].baseAddr <= item < blocks[k].baseAddr + blocks[k].size {
            PageInBlock(S(), k, item - blocks[k].baseAddr);
          }
        }
        return None;
      }
      var r := regions[region.value];
      SlotOfPage(addr, regions, region.value, item);
      var index := r.blockId + (item - r.baseAddr);
      var b := StepBack(index);
      block := Some(b);
      forall k: nat | k < |blocks| && Taken(S(), k) && blocks[k].baseAddr <= item < blocks[k].baseAddr + blocks[k].size
        ensures k == b
      {
        PageInBlock(S(), k, item - blocks[k].baseAddr);
      }
    }

    static lemma PageInBlock(s: State, k: nat, i: nat)
      requires Ok(s, |s.b|) && Taken(s, k) && i < s.b[k].size
      ensures k + i < |s.addr| == |s.b| == |s.o| && s.addr[k + i] == s.b[k].baseAddr + i > 0 && s.o[k + i] == k
    {
      hide Cleared, Tags, Listed, Clean, Coalesced;
      InBlock(s.b, s.o, k, k + i);
      AddressInBlock(s.b, s.o, s.addr, k, k + i);
    }

    method StepBack(index: nat) returns (block: nat)
      requires Sound() && index < |addr| == |blocks| && addr[index] > 0
      ensures block < |blocks| && block <= index < block + blocks[block].size && index < |owner|
      ensures block == owner[index]
      ensures addr[index] == blocks[block].baseAddr + (index - block)
    {
      hide Tiling, Listed, Clean, Coalesced, Tags, Addressed, Based;
      PageNotSentinel(S(), index);
      block := index;
      OwnerIsHead(blocks, owner, index);
      while blocks[block].size == 0
        invariant owner[index] <= block <= index && owner[block] == owner[index]
        decreases block
      {
        InnerOwner(blocks, owner, block);
        block := block - 1;
      }
      HeadOnly(blocks, owner, block, index);
      AddressInBlock(blocks, owner, addr, block, index);
    }

    static lemma PageNotSentinel(s: State, j: nat)
      requires Ok(s, |s.b|) && j < |s.addr| == |s.b| && s.addr[j] > 0
      ensures |s.o| == |s.b| && PageOf(s.b, s.o, j) != Sentinel
    {
      hide Tiling, Cleared, Tags, Listed, Clean, Coalesced, Based;
      Lengths(s);
      assert P(s)[j] != Sentinel;
    }

    static lemma HeadOnly(b: seq<HeapBlock>, o: seq<nat>, k: nat, j: nat)
      requires Tiles(b, o) && k <= j < |o| && b[k].size > 0 && o[k] == o[j]
      ensures o[k] == k && j < k + b[k].size
    {
    }

    /** Pages of different blocks have different addresses. */
    lemma SharedPage(j: nat, k: nat, i: nat, m: nat)
      requires Valid() && Taken(S(), j) && Taken(S(), k) && j + blocks[j].size <= k
      requires j <= i < j + blocks[j].size && k <= m < k + blocks[k].size
      ensures blocks[j].baseAddr + (i - j) != blocks[k].baseAddr + (m - k)
    {
      hide Tiling, Cleared, Listed, Clean, Coalesced, Tags;
      var s := S();
      AddressInBlock(s.b, s.o, s.addr, j, i);
      AddressInBlock(s.b, s.o, s.addr, k, m);
      PagesAre(s, |blocks|, j);
    }

    static lemma TakenByPage(s: State, k: nat)
      requires k < |s.o| == |s.b|
      ensures Taken(s, k) <==> P(s)[k] == Used(k)
    {
    }

    /** All steps but growth keep the blocks in use, and add at most a committed one. */
    static lemma StepKeeps(s: State, s': State, x: set<nat>, r: nat)
      requires Ok(s, |s.b|) && Ok(s', |s'.b|) && AllCommitted(s) && Kept(s, s', x)
      requires forall j :: j in x && j < |s'.b| && Taken(s', j) ==> s'.b[j].committed
      requires r < |s'.b| && Taken(s', r) ==> s'.b[r].committed
      requires forall j :: 0 <= j < |P(s')| && j < |P(s)| && j != r && P(s')[j] == Used(j) ==> P(s)[j] == Used(j)
      ensures AllCommitted(s') && s'.addr == s.addr && Survives(s, s', x)
    {
      hide Ok, Pages, Taken;
      SameLength0(s);
      SameLength0(s');
      forall k | 0 <= k < |s'.b| && Taken(s', k) ensures s'.b[k].committed {
        TakenByPage(s', k);
        TakenByPage(s, k);
      }
    }

    static lemma SameLength0(s: State)
      requires Ok(s, |s.b|)
      ensures |s.o| == |s.b| == |P(s)|
    {
    }

    static ghost predicate Scribbled(s: State, s': State) {
      && s' == s.(zero := s'.zero) && |s'.zero| == |s.zero| == |P(s)|
      && forall j :: 0 <= j < |s.zero| && P(s)[j].Free? ==> s'.zero[j] == s.zero[j]
    }

    /** The owner of a block writes to it. */
    ghost method Scribble(z: seq<bool>)
      requires Valid() && |z| == |zero| && |P(S())| == |zero|
      requires forall j :: 0 <= j < |zero| && P(S())[j].Free? ==> z[j] == zero[j]
      modifies `zero
      ensures Valid() && Survives(old(S()), S(), {}) && Scribbled(old(S()), S())
    {
      hide Ok;
      WriteOk(S(), |blocks|, z);
      zero := z;
    }

    method Allocate(size: nat, zero0: bool, alignment: nat) returns (block: Option<nat>, needsZero: bool)
      requires Valid() && size > 0 && alignment > 0
      modifies `blocks, `freelists, `owner
      ensures Valid() && |blocks| == old(|blocks|) && Survives(old(S()), S(), {})
      ensures block.Some? ==>
                Allocated(old(S()), S(), block.value, size) && blocks[block.value].baseAddr % alignment == 0
      ensures block.Some? ==> !old(Taken(S(), block.value))
      ensures block.Some? && zero0 && !needsZero ==> ZeroOn(zero, block.value, block.value + size)
      ensures block.Some? <==> CanMeet(old(S()), size, alignment)
      ensures block.None? ==> S() == old(S()) && NoneFits(old(S()), size, alignment)
    {
      hide Ok, Kept, P, Allocated, AllCommitted, Survives, NoneFits, CanMeet;
      ghost var s := S();
      block, needsZero := AllocBlock(size, zero0, alignment);
      if block.Some? {
        AllocatedKeeps(s, S(), block.value, size);
      } else {
        NothingLost(s);
      }
    }

    static lemma NothingLost(s: State)
      ensures Survives(s, s, {})
    {
    }

    static lemma AllocatedKeeps(s: State, s': State, r: nat, size: nat)
      requires Ok(s, |s.b|) && Ok(s', |s'.b|) && AllCommitted(s) && Allocated(s, s', r, size)
      ensures AllCommitted(s') && s'.addr == s.addr && Survives(s, s', {}) && !Taken(s, r)
    {
      hide Ok, Pages;
      SameLength0(s);
      SameLength0(s');
      forall j | 0 <= j < |P(s')| && j != r && P(s')[j] == Used(j) ensures P(s)[j] == Used(j) {}
      StepKeeps(s, s', {}, r);
      TakenByPage(s, r);
    }

    method Deallocate(block: nat)
      requires Valid() && Taken(S(), block)
      modifies `blocks, `freelists, `owner
      ensures Valid() && |blocks| == old(|blocks|) && Survives(old(S()), S(), {block}) && !Taken(S(), block)
      ensures P(S()) == Paint(old(P(S())), block, block + old(blocks[block].size), Free(true))
    {
      hide Ok, Kept, P, AllCommitted, Survives, Taken;
      ghost var s := S();
      InUseCommitted(s, block);
      FreeBlock(block);
      FreedKeeps(s, S(), block);
    }

    static lemma InUseCommitted(s: State, k: nat)
      requires AllCommitted(s) && Taken(s, k)
      ensures k < |s.b| && s.b[k].committed
    {
    }

    static lemma FreedKeeps(s: State, s': State, k: nat)
      requires Ok(s, |s.b|) && Ok(s', |s'.b|) && AllCommitted(s) && Taken(s, k) && Kept(s, s', {k})
      requires P(s') == Paint(P(s), k, k + s.b[k].size, Free(true))
      ensures AllCommitted(s') && s'.addr == s.addr && Survives(s, s', {k}) && !Taken(s', k)
    {
      hide Ok, Pages;
      SameLength0(s);
      SameLength0(s');
      TakenByPage(s', k);
      StepKeeps(s, s', {k}, k);
    }

    static lemma DecommittedKeeps(s: State, s': State, size: nat)
      requires Ok(s, |s.b|) && Ok(s', |s'.b|) && AllCommitted(s) && Kept(s, s', {})
      requires var all := Count(P(s), Free(true)); OnlyDecommitted(P(s), P(s'), if size <= all then size else all)
      ensures AllCommitted(s') && s'.addr == s.addr && Survives(s, s', {})
    {
      hide Ok, Pages, Count;
      SameLength0(s);
      SameLength0(s');
      forall j | 0 <= j < |P(s')| && P(s')[j] == Used(j) ensures P(s)[j] == Used(j) {}
      StepKeeps(s, s', {}, |s.b|);
    }

    /** ExpandHeapInternal, given what the operating system grants: the array grows by the new pages, and the regions by
        what was reserved for them. Reserved pages of the last region always continue the array. */
    method Expand(baseAddr: nat, size: nat, grant: Grant, use: Use)
      requires Valid() && CanExpand(regions, baseAddr, size, grant, use)
      modifies this
      ensures Valid() && Survives(old(S()), S(), {})
      ensures old(regions) == [] ==> old(|blocks|) == 0
      ensures grant.avail > 0 ==> old(Contiguous(blocks, baseAddr, grant))
      ensures var contiguous := old(Contiguous(blocks, baseAddr, grant));
        && Expanded(old(S()), S(), baseAddr, size, contiguous, use)
        && regions == Grow(old(regions), old(OldLength(S(), contiguous)), baseAddr, size, grant.avail, grant.top)
    {
      hide Ok, P, AllCommitted, Survives, Unshared, Expanded, RegionsOk, Grow, Mapped, Disjoint, Chained,
           FreshAddresses, Exact;
      ghost var s := S();
      var contiguous := Contiguous(blocks, baseAddr, grant);
      ExpandsAt(baseAddr, size, grant);
      ExpandBlocks(baseAddr, size, contiguous, use);
      GrownAddr(s, S(), contiguous, baseAddr, size, use);
      GrowOk(s.addr, regions, addr, |blocks| - size - 1, baseAddr, size, grant.avail, grant.top);
      GrowExact(regions, |blocks| - size - 1, baseAddr, size, grant.avail, grant.top);
      regions := Grow(regions, |blocks| - size - 1, baseAddr, size, grant.avail, grant.top);
    }

    /** What the system may grant: reserved pages of the last region only if the heap tries to go on there, which it
        does with virtual memory only; without, it gets no more than it uses. */
    predicate CanExpand(rs: seq<Region>, baseAddr: nat, size: nat, grant: Grant, use: Use) {
      && Grantable(rs, baseAddr, size, grant.avail, grant.top) && Used_(use) < size
      && (grant.avail > 0 ==> grant.adjoining) && (grant.adjoining ==> useVirtualMemory)
      && (!useVirtualMemory ==> grant.top == baseAddr + size)
    }

    /** The test for continuity: the new pages start where the last block ends. */
    static predicate Contiguous(b: seq<HeapBlock>, baseAddr: nat, grant: Grant) {
      && grant.adjoining && |b| > 0 && b[|b| - 1].sizePrevious < |b|
      && var last := b[|b| - 1 - b[|b| - 1].sizePrevious]; last.baseAddr + last.size == baseAddr
    }

    /** The block array and the free lists, after the memory has been got. It counts as dirty if it is not virtual. */
    method ExpandBlocks(baseAddr: nat, size: nat, contiguous: bool, use: Use)
      requires Sound() && baseAddr > 0 && Used_(use) < size && FreshAddresses(S(), baseAddr, size)
      requires contiguous ==>
                useVirtualMemory && |blocks| > 1 && |addr| == |blocks| && baseAddr == addr[|blocks| - 2] + 1
      modifies `blocks, `freelists, `owner, `addr, `zero
      ensures Sound() && Survives(old(S()), S(), {}) && Expanded(old(S()), S(), baseAddr, size, contiguous, use)
      ensures |blocks| == old(OldLength(S(), contiguous)) + size + 1
    {
      hide Ok, Kept, P, AllCommitted, Survives, Taken, Honest, Grown, Extends, Unshared, FreshAddresses;
      ghost var s := S();
      GrownOk(s, contiguous, baseAddr, size, !useVirtualMemory);
      var newBlocksLen := if contiguous then |blocks| - 1 else |blocks|;
      ghost var s1 := Grown(s, contiguous, baseAddr, size, !useVirtualMemory);
      blocks := NewBlocks(blocks, contiguous, baseAddr, size, !useVirtualMemory);
      owner, addr, zero := s1.o, s1.addr, s1.zero;
      GrownIs(s, S(), contiguous, baseAddr, size, !useVirtualMemory);
      GrownKeeps(s, S(), contiguous, baseAddr, size, !useVirtualMemory);
      NewHonest(s, S(), contiguous, size, useVirtualMemory);
      TopNotTaken(s);
      OldBlocksEnd(s, contiguous);
      FreeNew(newBlocksLen, size, use);
      GrownDone(s, s1, S(), newBlocksLen, size, use);
    }

    /** The old slots, the block of the table, the block of the regions, free pages, and a new top sentinel. */
    ghost predicate Expanded(s: State, s': State, baseAddr: nat, size: nat, contiguous: bool, use: Use) {
      && Used_(use) < size && (contiguous ==> |s.b| > 0) && |s.o| == |s.addr| == |s.zero| == |s.b|
      && s'.addr == Grown(s, contiguous, baseAddr, size, !useVirtualMemory).addr
      && var n := OldLength(s, contiguous);
         && n <= |P(s)|
         && P(s') == P(s)[..n] + NewPages(n, size, use) + [Sentinel]
    }

    static ghost function NewPages(n: nat, size: nat, use: Use): seq<Page>
      requires Used_(use) <= size
    {
      seq(use.table, i => Used(n)) + (if use.regionPage then [Used(n + use.table)] else [])
      + seq(size - Used_(use), i => Free(true))
    }

    static ghost predicate FreshAddresses(s: State, baseAddr: nat, size: nat) {
      forall j :: 0 <= j < |s.addr| ==> !(baseAddr <= s.addr[j] < baseAddr + size)
    }

    lemma ExpandsAt(baseAddr: nat, size: nat, grant: Grant)
      requires Valid() && 0 < size && Grantable(regions, baseAddr, size, grant.avail, grant.top)
      requires grant.avail > 0 ==> grant.adjoining
      ensures |addr| == |blocks| && FreshAddresses(S(), baseAddr, size)
      ensures regions == [] ==> |blocks| == 0
      ensures Contiguous(blocks, baseAddr, grant) ==> |blocks| > 1 && baseAddr == addr[|blocks| - 2] + 1
      ensures grant.avail > 0 ==> Contiguous(blocks, baseAddr, grant)
    {
      hide Ok, Unshared, AllCommitted, Mapped, Chained;
      Lengths(S());
      forall j | 0 <= j < |addr| ensures !(baseAddr <= addr[j] < baseAddr + size) {
        if addr[j] > 0 {
          var i := PageInRegion(addr, regions, j);
          Reserved(addr, regions, i, baseAddr, size, grant.avail, grant.top, addr[j]);
        }
      }
      NoRegionsNoBlocks(addr, regions);
      if Contiguous(blocks, baseAddr, grant) { LastAddress(S(), baseAddr); }
      if grant.avail > 0 {
        LastIsLast(addr, regions);
        LastBlock(S());
      }
    }

    static lemma LastAddress(s: State, baseAddr: nat)
      requires Ok(s, |s.b|) && baseAddr > 0 && |s.b| > 0 && s.b[|s.b| - 1].sizePrevious < |s.b|
      requires var last := s.b[|s.b| - 1 - s.b[|s.b| - 1].sizePrevious]; last.baseAddr + last.size == baseAddr
      ensures |s.b| > 1 && |s.addr| == |s.b| && baseAddr == s.addr[|s.b| - 2] + 1
    {
      hide Tiling, Cleared, Tags, Listed, Clean, Coalesced, Addressed, Based;
      TopSentinel(s.b, s.o);
      TopIsSentinel(s);
      TagLeadsBack(s, |s.b|, |s.b| - 1);
      AtBase(s, |s.b| - 1);
      if s.b[|s.b| - 1].sizePrevious > 0 {
        AddressInBlock(s.b, s.o, s.addr, |s.b| - 1 - s.b[|s.b| - 1].sizePrevious, |s.b| - 2);
      }
    }

    /** The boundary tag of the top sentinel leads to the block of the last page. */
    static lemma LastBlock(s: State)
      requires Ok(s, |s.b|) && |s.b| > 1 && |s.addr| == |s.b| && s.addr[|s.b| - 2] > 0
      ensures s.b[|s.b| - 1].sizePrevious < |s.b|
      ensures var last := s.b[|s.b| - 1 - s.b[|s.b| - 1].sizePrevious];
              last.baseAddr + last.size == s.addr[|s.b| - 2] + 1
    {
      hide Tiling, Cleared, Listed, Clean, Coalesced, Based, Tags;
      TopSentinel(s.b, s.o);
      TagLeadsBack(s, |s.b|, |s.b| - 1);
      AtBase(s, |s.b| - 1);
      var k := |s.b| - 1 - s.b[|s.b| - 1].sizePrevious;
      AddressInBlock(s.b, s.o, s.addr, k, |s.b| - 2);
    }

    static lemma AtBase(s: State, k: nat)
      requires Ok(s, |s.b|) && k < |s.b| == |s.o| && s.o[k] == k
      ensures |s.addr| == |s.b| && s.b[k].baseAddr == s.addr[k]
    {
    }

    static lemma GrownIs(s: State, s': State, contiguous: bool, baseAddr: nat, size: nat, dirty: bool)
      requires size > 0 && (contiguous ==> |s.b| > 0) && |s.o| == |s.addr| == |s.zero| == |s.b|
      requires var g := Grown(s, contiguous, baseAddr, size, dirty);
        s'.b == NewBlocks(s.b, contiguous, baseAddr, size, dirty) && s'.o == g.o && s'.addr == g.addr
            && s'.zero == g.zero && s'.l == s.l
      ensures s' == Grown(s, contiguous, baseAddr, size, dirty)
    {
    }

    lemma GrownKeeps(s: State, s': State, contiguous: bool, baseAddr: nat, size: nat, dirty: bool)
      requires Ok(s, |s.b|) && AllCommitted(s) && Unshared(s.addr) && size > 0 && baseAddr > 0
      requires FreshAddresses(s, baseAddr, size) && (contiguous ==> |s.b| > 0)
      requires |s.o| == |s.addr| == |s.zero| == |s.b|
      requires s' == Grown(s, contiguous, baseAddr, size, dirty) && Extends(s, s', OldLength(s, contiguous), size)
      requires s'.b[OldLength(s, contiguous)].committed
      ensures AllCommitted(s') && Unshared(s'.addr) && Survives(s, s', {})
    {
      hide Ok, Grown;
      var n := OldLength(s, contiguous);
      TopNotTaken(s);
      forall i, j | 0 <= i < j < |s'.addr| && s'.addr[i] > 0 ensures s'.addr[i] != s'.addr[j] {
        GrownSlots(s, contiguous, baseAddr, size, dirty, i);
        GrownSlots(s, contiguous, baseAddr, size, dirty, j);
      }
      forall k | 0 <= k < |s'.b| && Taken(s', k) ensures s'.b[k].committed {
        assert k < n ==> Taken(s, k);
      }
    }

    static lemma TopNotTaken(s: State)
      requires Ok(s, |s.b|)
      ensures |s.b| > 0 ==> !Taken(s, |s.b| - 1)
      ensures !Taken(s, |s.b|)
    {
      hide Tiling;
      if |s.b| > 0 { TopSentinel(s.b, s.o); }
    }

    static lemma NewHonest(s: State, s1: State, contiguous: bool, size: nat, virtual: bool)
      requires Ok(s, |s.b|) && Ok(s1, |s1.b|) && (contiguous ==> virtual && |s.b| > 0) && size > 0
      requires Extends(s, s1, OldLength(s, contiguous), size) && Taken(s1, OldLength(s, contiguous))
      requires var n := OldLength(s, contiguous);
               CleanAt(s1.b, s1.zero, n) && s1.b[n].committed && s1.b[n].dirty == !virtual
      ensures Honest(s1, OldLength(s, contiguous), false)
    {
      hide Tiling, Cleared, Listed, Clean, Coalesced, Based, Tags;
      GrownPages(s, s1, OldLength(s, contiguous), size);
      if |s.b| > 0 { TopIsSentinel(s); }
    }

    /** The new block is split for the table and for the regions, and the rest of it is free. */
    method FreeNew(block: nat, size: nat, use: Use)
      requires Sound() && Taken(S(), block) && blocks[block].size == size > Used_(use) && blocks[block].committed
      requires CleanAt(blocks, zero, block)
      requires Used_(use) == 0 ==> Honest(S(), block, false)
      modifies `blocks, `freelists, `owner
      ensures Sound() && |blocks| == old(|blocks|) && Survives(old(S()), S(), {block}) && addr == old(addr)
      ensures P(S()) == if use.regionPage
        then Paint(Paint(old(P(S())), block + use.table, block + size, Used(block + use.table)),
                   block + Used_(use), block + size, Free(true))
        else Paint(old(P(S())), block + Used_(use), block + size, Free(true))
    {
      hide Ok, Kept, P, AllCommitted, Survives, Taken, Honest;
      ghost var s := S();
      var rest := block;
      if use.table > 0 { rest := SplitNew(rest, use.table); }
      ghost var s1 := S();
      NothingSplit(s, block);
      if use.regionPage { rest := SplitNew(rest, 1); }
      ghost var s2 := S();
      NothingSplit(s1, block + use.table);
      AddToFreeList(rest, false, |blocks|);
      NewFreed(s, s1, s2, S(), block, use);
    }

    static lemma NothingSplit(s: State, k: nat)
      ensures Kept(s, s, {k})
    {
    }

    method SplitNew(block: nat, size: nat) returns (rest: nat)
      requires Ok(S(), |blocks|) && Taken(S(), block) && 0 < size < blocks[block].size && blocks[block].committed
      requires CleanAt(blocks, zero, block)
      modifies `blocks, `owner
      ensures Ok(S(), |blocks|) && |blocks| == old(|blocks|) && rest == block + size
      ensures Taken(S(), block) && Taken(S(), rest) && blocks[block].size == size && blocks[block].committed
      ensures blocks[rest].size == old(blocks[block].size) - size && blocks[rest].committed
      ensures CleanAt(blocks, zero, rest)
      ensures P(S()) == Paint(old(P(S())), rest, block + old(blocks[block].size), Used(rest))
      ensures Kept(old(S()), S(), {block}) && Honest(S(), rest, false)
    {
      hide Ok, Kept, P, CleanAt, Honest, Taken;
      ghost var s := S();
      rest := Split(block, size, |blocks|);
      TailHonest(S(), block, rest);
    }

    static lemma NewFreed(s: State, s1: State, s2: State, s3: State, k: nat, use: Use)
      requires Ok(s, |s.b|) && Ok(s3, |s3.b|) && AllCommitted(s) && Taken(s, k) && Used_(use) < s.b[k].size
      requires Kept(s, s1, {k}) && Kept(s1, s2, {k + use.table}) && Kept(s2, s3, {k + Used_(use)})
      requires var e, r := k + s.b[k].size, k + use.table;
        && P(s1) == (if use.table > 0 then Paint(P(s), r, e, Used(r)) else P(s))
        && P(s2) == (if use.regionPage then Paint(P(s1), r + 1, e, Used(r + 1)) else P(s1))
        && P(s3) == Paint(P(s2), k + Used_(use), e, Free(true))
      requires use.table > 0 ==> Taken(s1, k) && s1.b[k].committed
      requires use.regionPage ==> Taken(s2, k + use.table) && s2.b[k + use.table].committed
      ensures AllCommitted(s3) && Survives(s, s3, {k}) && s3.addr == s.addr
      ensures P(s3) == if use.regionPage
        then Paint(Paint(P(s), k + use.table, k + s.b[k].size, Used(k + use.table)),
                   k + Used_(use), k + s.b[k].size, Free(true))
        else Paint(P(s), k + Used_(use), k + s.b[k].size, Free(true))
    {
      hide Ok, P, AllCommitted, Survives, Taken, Kept, Paint;
      TakenPages(s, |s.b|, k);
      NewTaken(s, s1, s2, s3, k, use);
      NewKept(s, s1, s2, s3, k, use);
      SameLength0(s3);
      StillUsed(P(s), P(s1), P(s2), P(s3), k, k + s.b[k].size, use);
      StepKeeps(s, s3, {k}, k + use.table);
    }

    static lemma NewKept(s: State, s1: State, s2: State, s3: State, k: nat, use: Use)
      requires Ok(s, |s.b|) && Taken(s, k) && k < |s.b| && Used_(use) < s.b[k].size
      requires Kept(s, s1, {k}) && Kept(s1, s2, {k + use.table}) && Kept(s2, s3, {k + Used_(use)})
      ensures Kept(s, s3, {k})
    {
      hide Ok, Taken, Kept;
      KeptBoth(s, s1, s2, {k}, {k + use.table});
      KeptBoth(s, s2, s3, {k} + {k + use.table}, {k + Used_(use)});
      var x := {k} + {k + use.table} + {k + Used_(use)};
      forall j | j in x && j !in {k} ensures !Taken(s, j) { InsideNotTaken(s, k, j); }
      KeptOnly(s, s3, x, {k});
    }

    static lemma StillUsed(p: seq<Page>, p1: seq<Page>, p2: seq<Page>, p3: seq<Page>, k: nat, e: nat, use: Use)
      requires k + Used_(use) < e <= |p| && forall j :: k <= j < e ==> p[j] == Used(k)
      requires var r := k + use.table;
        && p1 == (if use.table > 0 then Paint(p, r, e, Used(r)) else p)
        && p2 == (if use.regionPage then Paint(p1, r + 1, e, Used(r + 1)) else p1)
        && p3 == Paint(p2, k + Used_(use), e, Free(true))
      ensures forall j :: 0 <= j < |p3| && j < |p| && j != k + use.table && p3[j] == Used(j) ==> p[j] == Used(j)
      ensures p3 == if use.regionPage
        then Paint(Paint(p, k + use.table, e, Used(k + use.table)), k + Used_(use), e, Free(true))
        else Paint(p, k + Used_(use), e, Free(true))
    {
    }

    /** What is in use of the new block is committed. */
    static lemma NewTaken(s: State, s1: State, s2: State, s3: State, k: nat, use: Use)
      requires Ok(s3, |s3.b|) && Kept(s1, s2, {k + use.table}) && Kept(s2, s3, {k + Used_(use)})
      requires use.table > 0 ==> Taken(s1, k) && s1.b[k].committed
      requires use.regionPage ==> Taken(s2, k + use.table) && s2.b[k + use.table].committed
      requires k + Used_(use) < |P(s3)| && P(s3)[k + Used_(use)].Free?
      ensures forall j :: j in {k, k + use.table} && j < |s3.b| && Taken(s3, j) ==> s3.b[j].committed
    {
      hide Ok, Pages;
      SameLength0(s3);
      TakenByPage(s3, k + Used_(use));
    }

    static lemma GrownDone(s: State, s1: State, s2: State, n: nat, size: nat, use: Use)
      requires Ok(s, |s.b|) && Ok(s1, |s1.b|) && Extends(s, s1, n, size) && Used_(use) < size
      requires Survives(s, s1, {}) && Survives(s1, s2, {n}) && !Taken(s, n)
      requires forall k :: 0 <= k < n && s.o[k] == k ==> k + s.b[k].size <= n
      requires P(s2) == if use.regionPage
        then Paint(Paint(P(s1), n + use.table, n + size, Used(n + use.table)), n + Used_(use), n + size, Free(true))
        else Paint(P(s1), n + Used_(use), n + size, Free(true))
      ensures Survives(s, s2, {}) && n <= |P(s)|
      ensures P(s2) == P(s)[..n] + NewPages(n, size, use) + [Sentinel]
    {
      hide Tiling, Cleared, Listed, Clean, Coalesced, Addressed, Based, Tags, Pages, Taken, Survives, NewPages, Paint;
      GrownPages(s, s1, n, size);
      SurvivesBoth(s, s1, s2, {}, {n});
      SurvivesOnly(s, s2, {} + {n}, {});
      Painted(P(s), P(s1), n, size, use);
    }

    static lemma Painted(p: seq<Page>, p1: seq<Page>, n: nat, size: nat, use: Use)
      requires Used_(use) < size && n <= |p| && |p1| == n + size + 1 && p1[n + size] == Sentinel
      requires (forall j :: 0 <= j < n ==> p1[j] == p[j]) && forall j :: n <= j < n + size ==> p1[j] == Used(n)
      ensures p[..n] + NewPages(n, size, use) + [Sentinel] == if use.regionPage
        then Paint(Paint(p1, n + use.table, n + size, Used(n + use.table)), n + Used_(use), n + size, Free(true))
        else Paint(p1, n + Used_(use), n + size, Free(true))
    {
    }

    lemma GrownAddr(s: State, s': State, contiguous: bool, baseAddr: nat, size: nat, use: Use)
      requires Expanded(s, s', baseAddr, size, contiguous, use)
      ensures var a, n := s'.addr, OldLength(s, contiguous);
        && |a| == n + size + 1 && a[n + size] == 0 && n <= |s.addr| && (forall j :: 0 <= j < n ==> a[j] == s.addr[j])
        && forall j :: n <= j < n + size ==> a[j] == baseAddr + (j - n)
    {
      hide Pages;
    }

    /** Free undoes allocate: on a heap without decommitted pages, whatever the request and the neighbours, the heap
        is partitioned into the same blocks afterwards. */
    method AllocateThenFree(size: nat, zero0: bool, alignment: nat)
      requires Valid() && size > 0 && alignment > 0 && forall j :: 0 <= j < |P(S())| ==> P(S())[j] != Free(false)
      modifies `blocks, `freelists, `owner
      ensures Valid() && P(S()) == old(P(S())) && owner == old(owner) && |blocks| == old(|blocks|)
      ensures forall k :: 0 <= k < |blocks| ==> SameBlock(old(blocks[k]), blocks[k])
    {
      hide Ok, P, Allocated, AllCommitted, Survives, Taken, Unshared, SameBlock;
      ghost var s := S();
      var block, needsZero := Allocate(size, zero0, alignment);
      if block.Some? {
        ghost var s1 := S();
        AllocatedTaken(s, s1, block.value, size);
        Deallocate(block.value);
        PagesRestored(s, s1, S(), block.value, size);
      }
      SamePartition(s, S());
    }

    static lemma AllocatedTaken(s: State, s': State, r: nat, size: nat)
      requires Allocated(s, s', r, size)
      ensures Taken(s', r) && r < |s'.b| && s'.b[r].size == size
    {
    }

    static lemma PagesRestored(s: State, s1: State, s2: State, r: nat, size: nat)
      requires Allocated(s, s1, r, size) && P(s2) == Paint(P(s1), r, r + size, Free(true))
      requires forall j :: 0 <= j < |P(s)| ==> P(s)[j] != Free(false)
      ensures P(s2) == P(s)
    {
      hide Pages, Kept, Taken;
    }

    // ----- Removing a region

    ghost function H(): Heap
      reads this
    {
      Heap(S(), regions)
    }

    /** The region at i, which starts at k, has left the array, and all that is behind it has slid down. */
    static ghost predicate Trimmed(h: Heap, h': Heap, k: nat, i: nat) {
      && i < |h.regions| && 0 <= End(h.regions[i])
      && exists lo: nat, hi: nat :: Without(h, h', k, i, lo, hi)
    }

    static ghost predicate Without(h: Heap, h': Heap, k: nat, i: nat, lo: nat, hi: nat)
      requires i < |h.regions| && 0 <= End(h.regions[i])
    {
      && Cuts(h.s.addr, h'.s.addr, k, End(h.regions[i]), lo, hi) && lo <= hi && k <= lo
      && PagesCut(P(h.s), P(h'.s), k, lo, hi)
      && (forall j :: i < j < |h.regions| ==> hi - lo <= h.regions[j].blockId)
      && h'.regions == Shifted(h.regions, i, hi - lo)
    }

    static ghost predicate PagesCut(p: seq<Page>, p': seq<Page>, k: nat, lo: nat, hi: nat)
      requires k <= lo <= hi
    {
      && hi <= |p| && |p'| == |p| - (hi - lo)
      && (forall j :: 0 <= j < k ==> p'[j] == p[j]) && (k < lo ==> p'[k] == Sentinel)
      && forall j :: hi <= j < |p| ==> p'[j - (hi - lo)] == SlidePage(p[j], hi - lo)
    }

    /** The block is all that the region reserves. */
    predicate FillsRegion(block: nat, region: nat)
      reads `blocks, `regions
    {
      && block < |blocks| && region < |regions| && regions[region].baseAddr == blocks[block].baseAddr
      && regions[region].reserveTop == blocks[block].baseAddr + blocks[block].size
    }

    /** RemoveBlock: a block that fills a region leaves the array with the region, and what is behind it slides down.
        Just the slots of the block go, with one more where it leaves two sentinels together, or one less where it
        leaves two blocks together, which then get a sentinel between them. */
    method RemoveBlock(block: nat) returns (ghost region: nat)
      requires Valid() && Taken(S(), block) && exists i: nat :: FillsRegion(block, i)
      modifies this
      ensures block + old(blocks[block].size) < old(|blocks|) && region < old(|regions|)
      ensures old(FillsRegion(block, region))
      ensures old(regions[region].blockId) == block && old(End(regions[region])) == block + old(blocks[block].size)
      ensures var lo, hi := old(CutFrom(blocks, block)), old(CutTo(blocks, block));
        && Without(old(H()), H(), block, region, lo, hi) && |blocks| == old(|blocks|) - (hi - lo)
        && Removal(old(S()), S(), block, block + old(blocks[block].size), lo, hi) && Slid(old(S()), S(), block, lo, hi)
      // no page of the block is in the array any more
      ensures forall j :: 0 <= j < |addr| ==>
                !(old(blocks[block].baseAddr) <= addr[j] < old(blocks[block].baseAddr + blocks[block].size))
      ensures Valid()
    {
      hide Ok, P, Removal, Taken, AllCommitted, Unshared, RegionsOk, Slid, Cuts, PagesCut, Exact, Shifted;
      ghost var s, rs := S(), regions;
      ghost var i: nat :| FillsRegion(block, i);
      TakenIs(s, block);
      var found := AddrToRegion(blocks[block].baseAddr);
      RegionFilled(block, i, found);
      region := found.value;
      var lo, hi := SlideDown(block);
      PagesGone(s, S(), block, block + s.b[block].size, lo, hi);
      RemovalCuts(s, S(), block, block + s.b[block].size, lo, hi);
      RemovalPages(s, S(), block, block + s.b[block].size, lo, hi);
      ShiftedOk(s.addr, rs, region, addr, lo, hi);
      IdsAscend(s.addr, rs);
      SlideRegions(found.value, hi - lo);
      StillExact(rs, region, hi - lo);
    }

    static lemma RemovalPages(s: State, s': State, k: nat, n: nat, lo: nat, hi: nat)
      requires Removal(s, s', k, n, lo, hi)
      ensures k <= lo <= hi && k <= n <= hi && PagesCut(P(s), P(s'), k, lo, hi)
    {
      hide Ok, P, Taken, Joined;
      RemovedPages(s, s', k, n, lo, hi);
    }

    lemma RegionFilled(block: nat, i: nat, found: Option<nat>)
      requires Valid() && Taken(S(), block) && block < |blocks| && blocks[block].size > 0 && FillsRegion(block, i)
      requires forall i :: 0 <= i < |regions| && In(regions[i], blocks[block].baseAddr) ==> found == Some(i)
      ensures found.Some? && FillsRegion(block, found.value)
      ensures regions[found.value].blockId == block && End(regions[found.value]) == block + blocks[block].size < |addr|
    {
      hide Ok, P, RegionsOk, AllCommitted, Taken, Unshared;
      assert found == Some(i);
      AddressesOfBlock(S(), block);
      WholeRegion(addr, regions, i, block, block + blocks[block].size);
    }

    static lemma AddressesOfBlock(s: State, k: nat)
      requires Ok(s, |s.b|) && Taken(s, k)
      ensures k < k + s.b[k].size < |s.addr| == |s.b|
      ensures forall j :: k <= j < k + s.b[k].size ==> s.addr[j] == s.b[k].baseAddr + (j - k) > 0
    {
      hide Ok, P;
      NextInArray(s, k);
      forall j | k <= j < k + s.b[k].size
        ensures s.addr[j] == s.b[k].baseAddr + (j - k) > 0
      {
        PageInBlock(s, k, j - k);
      }
    }

    static lemma NextInArray(s: State, k: nat)
      requires Ok(s, |s.b|) && Taken(s, k)
      ensures 0 < s.b[k].size && k + s.b[k].size < |s.b| == |s.addr|
    {
      hide Tags, Listed, Clean, Coalesced, Addressed;
      NextHead(s.b, s.o, k);
      Lengths(s);
    }

    static lemma RemovalCuts(s: State, s': State, k: nat, n: nat, lo: nat, hi: nat)
      requires Removal(s, s', k, n, lo, hi)
      ensures Cuts(s.addr, s'.addr, k, n, lo, hi)
    {
      hide Tiling, Cleared, Listed, Clean, Coalesced, Tags, Based;
      TakenIs(s, k);
    }

    /** The loop that decrements the block ids of the regions behind, and the removal of the region. */
    method SlideRegions(region: nat, d: nat)
      requires region < |regions| && forall i, j :: 0 <= i < j < |regions| ==> regions[i].blockId < regions[j].blockId
      requires forall j :: region < j < |regions| ==> d <= regions[j].blockId
      modifies `regions
      ensures regions == Shifted(old(regions), region, d)
    {
      ghost var rs := regions;
      var r := |regions|;
      while r > 0
        invariant 0 <= r <= |regions| == |rs|
        invariant forall j :: 0 <= j < |rs| ==>
                    regions[j] == if r <= j && region < j then rs[j].(blockId := rs[j].blockId - d) else rs[j]
      {
        r := r - 1;
        if regions[r].blockId > regions[region].blockId {
          regions := regions[r := regions[r].(blockId := regions[r].blockId - d)];
        }
      }
      regions := regions[..region] + regions[region + 1..];
    }

    static lemma PagesGone(s: State, s': State, k: nat, n: nat, lo: nat, hi: nat)
      requires Removal(s, s', k, n, lo, hi) && Unshared(s.addr)
      ensures k <= lo <= k + 1 && n <= hi <= |s.b| && |s'.b| == |s.b| - (hi - lo) == |s'.addr| && k < |s.b|
      ensures forall j :: 0 <= j < |s'.addr| ==> !(s.b[k].baseAddr <= s'.addr[j] < s.b[k].baseAddr + s.b[k].size)
    {
      hide Ok, Gone, Joined, P;
      Sides(s, s', k, n, lo, hi, k);
      RemovedZero(s, s', k, n, lo, hi);
      forall j | 0 <= j < |s'.addr| ensures !(s.b[k].baseAddr <= s'.addr[j] < s.b[k].baseAddr + s.b[k].size) {
        AddressesKept(s, s', k, n, lo, hi, j);
        if s.b[k].baseAddr <= s'.addr[j] < s.b[k].baseAddr + s.b[k].size {
          PagesElsewhere(s, k, s'.addr[j] - s.b[k].baseAddr);
        }
      }
    }

    /** The page at this offset in the block has just one slot. */
    static lemma PagesElsewhere(s: State, k: nat, i: nat)
      requires Ok(s, |s.b|) && Taken(s, k) && i < s.b[k].size && Unshared(s.addr)
      ensures 0 < s.b[k].baseAddr && k + s.b[k].size < |s.addr| == |s.b|
      ensures forall j :: 0 <= j < |s.addr| && s.addr[j] == s.b[k].baseAddr + i ==> j == k + i
    {
      hide Tiling, Cleared, Listed, Clean, Coalesced, Tags;
      AddressInBlock(s.b, s.o, s.addr, k, k + i);
      AddressInBlock(s.b, s.o, s.addr, k, k);
      NextHead(s.b, s.o, k);
    }

    /** The entries of the array, and the links of the free lists, slide down. */
    method SlideDown(block: nat) returns (lo: nat, hi: nat)
      requires Sound() && Taken(S(), block)
      modifies `blocks, `freelists, `owner, `addr, `zero
      ensures Sound() && lo <= hi && Slid(old(S()), S(), block, lo, hi)
      ensures block + old(blocks[block].size) < old(|blocks|)
      ensures lo == old(CutFrom(blocks, block)) && hi == old(CutTo(blocks, block))
      ensures Removal(old(S()), S(), block, block + old(blocks[block].size), lo, hi)
    {
      hide Ok, P, Removal, Taken, AllCommitted, Unshared, Slid, Prepared, SlideLists, SlideOwners, CutAddresses;
      ghost var s := S();
      Around(s, block);
      TakenIs(s, block);
      lo, hi := CutFrom(blocks, block), CutTo(blocks, block);
      blocks := Cut(Prepared(blocks, block), lo, hi);
      freelists := SlideLists(freelists, lo, hi);
      owner, addr, zero := SlideOwners(owner, lo, hi), CutAddresses(addr, block, lo, hi), Cut(zero, lo, hi);
      IsRemoval(s, S(), block);
      RemovedOk(s, S(), block, block + s.b[block].size, lo, hi);
      RemovedSlid(s, S(), block, block + s.b[block].size, lo, hi);
    }

    /** Every other block is where its slot slid to, with the same address, size and state; the free lists have the
        same blocks in the same order. */
    static ghost predicate Slid(s: State, s': State, k: nat, lo: nat, hi: nat)
      requires lo <= hi
    {
      && s'.l == SlideLists(s.l, lo, hi) && |s'.b| == |s'.o|
      && forall i :: 0 <= i < |s.b| == |s.o| && s.o[i] == i && s.b[i].size > 0 && i != k ==>
           var j := Slide(i, lo, hi);
           j < |s'.b| && s'.b[j] == s.b[i].(sizePrevious := s'.b[j].sizePrevious) && (Taken(s, i) ==> Taken(s', j))
    }

    static lemma RemovedSlid(s: State, s': State, k: nat, n: nat, lo: nat, hi: nat)
      requires Removal(s, s', k, n, lo, hi) && Ok(s', |s'.b|) && AllCommitted(s) && Unshared(s.addr)
      ensures lo <= hi && Slid(s, s', k, lo, hi) && AllCommitted(s') && Unshared(s'.addr)
    {
      hide Ok, Gone, Joined, P, Unshared;
      Sides(s, s', k, n, lo, hi, k);
      SlideLength(s, s', k, n, lo, hi);
      RemovedZero(s, s', k, n, lo, hi);
      forall i | 0 <= i < |s.b| == |s.o| && s.o[i] == i && s.b[i].size > 0 && i != k ensures
        var j := Slide(i, lo, hi);
        j < |s'.b| && s'.b[j] == s.b[i].(sizePrevious := s'.b[j].sizePrevious) && (Taken(s, i) ==> Taken(s', j))
      {
        BlockSlides(s, s', k, n, lo, hi, i);
        Sides(s, s', k, n, lo, hi, i);
      }
      forall j | 0 <= j < |s'.b| && Taken(s', j) ensures s'.b[j].committed {
        var i := TakenBefore(s, s', k, n, lo, hi, j);
      }
      StillUnshared(s, s', k, n, lo, hi);
    }

    static lemma StillUnshared(s: State, s': State, k: nat, n: nat, lo: nat, hi: nat)
      requires Removal(s, s', k, n, lo, hi) && Unshared(s.addr)
      ensures Unshared(s'.addr)
    {
      hide Ok, Gone, P;
      Sides(s, s', k, n, lo, hi, k);
      forall i, j | 0 <= i < j < |s'.addr| && s'.addr[i] > 0 ensures s'.addr[i] != s'.addr[j] {
        AddressesKept(s, s', k, n, lo, hi, i);
        AddressesKept(s, s', k, n, lo, hi, j);
        if lo <= j || j < k {
          var i' := if i < k then i else i + (hi - lo);
          var j' := if j < k then j else j + (hi - lo);
          assert i' < j' && s.addr[i'] != s.addr[j'];
        }
      }
    }

    // ----- Decommitting where whole regions may be given back

    /** The test for giving a region back: what is to be decommitted of the block includes all that the region
        reserves; without virtual memory, the block has to be just what it has committed. */
    ghost predicate Releases(h: Heap, k: nat, decommitSize: nat, trim: bool, i: nat)
    {
      && k < |h.s.b| && i < |h.regions| && h.s.b[k].baseAddr == h.regions[i].baseAddr
      && if useVirtualMemory
         then trim && h.regions[i].reserveTop <= h.s.b[k].baseAddr + Min(h.s.b[k].size, decommitSize)
         else h.regions[i].commitTop == h.s.b[k].baseAddr + h.s.b[k].size
    }

    /** A block in use at the address. */
    static ghost predicate LiveAt(s: State, item: nat, size: nat) {
      exists k: nat :: k < |s.b| && Taken(s, k) && s.b[k].baseAddr == item && s.b[k].size == size
    }

    /** Blocks in use are still there, wherever their slots are now, but for those at the addresses in x. */
    static ghost predicate Persists(s: State, s': State, x: set<nat>) {
      forall k: nat :: k < |s.b| && Taken(s, k) && s.b[k].baseAddr !in x ==> LiveAt(s', s.b[k].baseAddr, s.b[k].size)
    }

    static lemma PersistsBoth(s: State, s1: State, s2: State, x: set<nat>, y: set<nat>)
      requires Persists(s, s1, x) && Persists(s1, s2, y)
      ensures Persists(s, s2, x + y)
    {
      hide Taken;
      forall k: nat | k < |s.b| && Taken(s, k) && s.b[k].baseAddr !in x + y
        ensures LiveAt(s2, s.b[k].baseAddr, s.b[k].size)
      {
        assert LiveAt(s1, s.b[k].baseAddr, s.b[k].size);
      }
    }

    static lemma SurvivorsPersist(s: State, s': State, x: set<nat>, y: set<nat>)
      requires Survives(s, s', x) && forall k :: k in x && k < |s.b| && Taken(s, k) ==> s.b[k].baseAddr in y
      ensures Persists(s, s', y)
    {
      hide Taken;
      forall k: nat | k < |s.b| && Taken(s, k) && s.b[k].baseAddr !in y
        ensures LiveAt(s', s.b[k].baseAddr, s.b[k].size)
      {
        assert Taken(s', k) && k < |s'.b| by { TakenIs(s', k); }
      }
    }

    static lemma TakenKeeps(s: State, s1: State, k: nat)
      requires Ok(s, |s.b|) && Ok(s1, |s1.b|) && AllCommitted(s) && Unshared(s.addr) && Linked(s, k) && Kept(s, s1, {k})
      requires Taken(s1, k) && k < |s1.b| && s1.b[k].committed && s1.b[k].size <= s.b[k].size
      requires P(s1) == Paint(P(s), k, k + s1.b[k].size, Used(k))
      ensures AllCommitted(s1) && Unshared(s1.addr) && s1.addr == s.addr
    {
      hide Ok, Pages, Kept, AllCommitted, Unshared, Taken, Survives;
      LinkedPages(s, |s.b|, k);
      SameLength0(s);
      KeptAddresses(s, s1, {k});
      StepKeeps(s, s1, {k}, k);
    }

    static lemma KeptAddresses(s: State, s1: State, x: set<nat>)
      requires Kept(s, s1, x)
      ensures s1.addr == s.addr && |s1.b| == |s.b|
    {
    }

    /** The region of a block, and no other, may start where the block starts. */
    lemma RegionOfBlock(block: nat, found: Option<nat>)
      requires Valid() && block < |blocks| && (Taken(S(), block) || Linked(S(), block))
      requires forall i :: 0 <= i < |regions| && In(regions[i], blocks[block].baseAddr) ==> found == Some(i)
      ensures found.Some? && found.value < |regions| && regions[found.value].baseAddr <= blocks[block].baseAddr
      ensures forall i :: 0 <= i < |regions| && regions[i].baseAddr == blocks[block].baseAddr ==> i == found.value
    {
      hide Ok, P, AllCommitted, Unshared, Disjoint, Chained;
      BlockAddress(S(), block);
      var i := PageInRegion(addr, regions, block);
      assert Mapped(addr, regions[i]);
      ReservesMore(addr, regions[i]);
      assert found == Some(i);
      forall j | 0 <= j < |regions| && regions[j].baseAddr == blocks[block].baseAddr ensures j == found.value {
        assert Mapped(addr, regions[j]);
      }
    }

    static lemma BlockAddress(s: State, k: nat)
      requires Ok(s, |s.b|) && k < |s.b| && (Taken(s, k) || Linked(s, k))
      ensures k < |s.addr| && s.addr[k] == s.b[k].baseAddr > 0
    {
      hide Ok, P;
      if Linked(s, k) { IsHead(s, |s.b|, k); }
      HeadAddress(s, k);
    }

    static lemma HeadAddress(s: State, k: nat)
      requires Ok(s, |s.b|) && k < |s.b| == |s.o| && s.o[k] == k && s.b[k].size > 0
      ensures k < |s.addr| && s.addr[k] == s.b[k].baseAddr > 0
    {
      hide Tiling, Cleared, Tags, Listed, Clean, Coalesced, Addressed;
      PagesAre(s, |s.b|, k);
    }

    method DecommitVirtual(block: nat, decommitSize: nat, trim: bool) returns (rest: nat, region: Option<nat>)
      requires useVirtualMemory && decommitSize > 0
      requires Valid() && Linked(S(), block) && block < |blocks| && blocks[block].committed
      modifies this
      ensures region.Some? ==> Releases(old(H()), block, decommitSize, trim, region.value)
                               && Trimmed(old(H()), H(), block, region.value)
      ensures region.None? ==>
                (forall i: nat :: !Releases(old(H()), block, decommitSize, trim, i)) && regions == old(regions)
      ensures region.None? ==>
                P(S()) == Paint(old(P(S())), block, block + Min(old(blocks[block].size), decommitSize), Free(false))
      ensures region.None? ==> Kept(old(S()), S(), {})
      ensures rest == if region.None? then decommitSize - Min(old(blocks[block].size), decommitSize)
                      else decommitSize - (old(regions[region.value].reserveTop) - old(blocks[block].baseAddr))
      ensures Persists(old(S()), S(), {}) && Valid()
    {
      hide Ok, P, Kept, Taken, Linked, AllCommitted, Unshared, RegionsOk, CleanAt, ZeroOn, Trimmed, Persists;
      ghost var h := H();
      TakeFree(block, decommitSize);
      ghost var s1 := S();
      TakenIs(s1, block);
      TakenKeeps(h.s, s1, block);
      var found := AddrToRegion(blocks[block].baseAddr);
      RegionOfBlock(block, found);
      var r := regions[found.value];
      if trim && blocks[block].baseAddr <= r.baseAddr && r.reserveTop <= blocks[block].baseAddr + blocks[block].size {
        rest := decommitSize - (r.reserveTop - r.baseAddr);
        ReleaseRegion(block, found.value, h);
        region := Some(found.value);
      } else {
        rest, region := decommitSize - blocks[block].size, None;
        ReleasePages(block);
        ghost var s2 := S();
        FreeDecommitted(block);
        Decommitted(h.s, s1, s2, S(), block);
        DecommittedAt(h.s, S(), block, s1.b[block].size);
      }
    }

    static lemma DecommittedAt(s: State, s': State, k: nat, n: nat)
      requires Ok(s, |s.b|) && Ok(s', |s'.b|) && AllCommitted(s) && Unshared(s.addr) && Kept(s, s', {})
      requires P(s') == Paint(P(s), k, k + n, Free(false))
      ensures AllCommitted(s') && Unshared(s'.addr) && s'.addr == s.addr && Persists(s, s', {})
    {
      hide Ok, Pages, Kept, AllCommitted, Unshared, Taken, Survives, Persists;
      SameLength0(s);
      KeptAddresses(s, s', {});
      StepKeeps(s, s', {}, |s.b|);
      SurvivorsPersist(s, s', {}, {});
    }

    /** Without virtual memory there is nothing to be done but to give a region back. */
    method ReleaseWhole(block: nat, decommitSize: nat, trim: bool) returns (region: Option<nat>)
      requires !useVirtualMemory && Valid() && Linked(S(), block) && block < |blocks| && blocks[block].committed
      modifies this
      ensures region.Some? ==> Releases(old(H()), block, decommitSize, trim, region.value)
                               && Trimmed(old(H()), H(), block, region.value)
      ensures region.None? ==> H() == old(H()) && forall i: nat :: !Releases(old(H()), block, decommitSize, trim, i)
      ensures region.None? ==> Kept(old(S()), S(), {})
      ensures Persists(old(S()), S(), {}) && Valid()
    {
      hide Ok, P, Kept, Taken, Linked, AllCommitted, Unshared, RegionsOk, CleanAt, Trimmed, Persists;
      ghost var h := H();
      var found := AddrToRegion(blocks[block].baseAddr);
      RegionOfBlock(block, found);
      var r := regions[found.value];
      if blocks[block].baseAddr == r.baseAddr && r.commitTop == blocks[block].baseAddr + blocks[block].size {
        RemoveFromList(block, |blocks|);
        TakenIs(S(), block);
        TakenKeeps(h.s, S(), block);
        ReleaseRegion(block, found.value, h);
        region := Some(found.value);
      } else {
        region := None;
        NothingYet(S());
        NothingLost(S());
        SurvivorsPersist(S(), S(), {}, {});
      }
    }

    /** A block in hand, all of which was free, that holds a region: the region leaves the array. */
    method ReleaseRegion(block: nat, region: nat, ghost h: Heap)
      requires Valid() && InHandOf(h, block) && Holds(block, region)
      modifies this
      ensures Trimmed(h, H(), block, region) && Persists(h.s, S(), {}) && Valid()
    {
      hide Ok, P, Kept, Taken, AllCommitted, Unshared, RegionsOk, CleanAt, Trimmed, Persists, Removal, Slid, Without;
      CutToRegion(block, region, h);
      ghost var s := S();
      assert FillsRegion(block, region);
      ghost var gone := RemoveBlock(block);
      SameRegion(h.s.addr, h.regions, gone, region);
      ReleaseDone(h, Heap(s, h.regions), H(), block, region, CutFrom(s.b, block), CutTo(s.b, block));
    }

    /** The block is, or is part of, what was free and committed at its place. */
    ghost predicate InHandOf(h: Heap, block: nat)
      reads this
    {
      && Taken(S(), block) && block < |blocks| && blocks[block].committed && CleanAt(blocks, zero, block)
      && Ok(h.s, |h.s.b|) && AllCommitted(h.s) && Linked(h.s, block) && h.s.b[block].committed
      && blocks[block].size <= h.s.b[block].size
      && h.regions == regions && h.s.addr == addr && Kept(h.s, S(), {block})
      && P(S()) == Paint(P(h.s), block, block + blocks[block].size, Used(block))
    }

    predicate Holds(block: nat, region: nat)
      reads `blocks, `regions
    {
      && block < |blocks| && region < |regions| && regions[region].baseAddr == blocks[block].baseAddr
      && regions[region].reserveTop <= blocks[block].baseAddr + blocks[block].size
    }

    method CutToRegion(block: nat, region: nat, ghost h: Heap)
      requires Valid() && InHandOf(h, block) && Holds(block, region)
      modifies `blocks, `freelists, `owner
      ensures Valid() && InHandOf(h, block) && FillsRegion(block, region)
    {
      hide Ok, P, Kept, Taken, AllCommitted, Unshared, RegionsOk, CleanAt;
      ghost var s := S();
      if blocks[block].baseAddr + blocks[block].size > regions[region].reserveTop {
        StartsBelow(region);
        CutBack(block, regions[region].reserveTop - blocks[block].baseAddr);
      } else {
        SameBack(S(), block);
      }
      TakenIs(S(), block);
      FreeTaken(h.s, s, S(), block);
      TakenKeeps(h.s, S(), block);
    }

    lemma StartsBelow(region: nat)
      requires Valid() && region < |regions|
      ensures regions[region].baseAddr < regions[region].reserveTop
    {
      hide Sound, Disjoint, Chained;
      assert Mapped(addr, regions[region]);
    }

    static lemma SameRegion(addr: seq<nat>, rs: seq<Region>, i: nat, j: nat)
      requires RegionsOk(addr, rs) && i < |rs| && j < |rs| && rs[i].baseAddr == rs[j].baseAddr
      ensures i == j
    {
      hide Disjoint, Chained;
      assert Mapped(addr, rs[i]) && Mapped(addr, rs[j]);
      OneRegion(addr, rs, i, j, rs[i].baseAddr);
    }

    static lemma ReleaseDone(h: Heap, h1: Heap, h': Heap, k: nat, i: nat, lo: nat, hi: nat)
      requires Linked(h.s, k) && Kept(h.s, h1.s, {k}) && h1.s.addr == h.s.addr && h1.regions == h.regions
      requires i < |h.regions| && k < |h1.s.b| && k + h1.s.b[k].size == End(h.regions[i])
      requires P(h1.s) == Paint(P(h.s), k, k + h1.s.b[k].size, Used(k))
      requires Without(h1, h', k, i, lo, hi) && Slid(h1.s, h'.s, k, lo, hi) && k + h1.s.b[k].size <= hi
      ensures Trimmed(h, h', k, i) && Persists(h.s, h'.s, {})
    {
      hide Ok, P, Cuts, Kept, Taken, Slid, Shifted, Persists, PagesCut, Linked;
      PaintedCut(P(h.s), P(h1.s), P(h'.s), k, k + h1.s.b[k].size, Used(k), lo, hi);
      assert Without(h, h', k, i, lo, hi);
      RestPersists(h.s, h1.s, h'.s, k, lo, hi);
    }

    /** What the pages that go looked like does not matter. */
    static lemma PaintedCut(p: seq<Page>, p1: seq<Page>, p': seq<Page>, k: nat, n: nat, c: Page, lo: nat, hi: nat)
      requires k <= lo <= hi && k <= n <= hi && PagesCut(p1, p', k, lo, hi) && p1 == Paint(p, k, n, c)
      ensures PagesCut(p, p', k, lo, hi)
    {
    }

    static lemma RestPersists(s: State, s1: State, s2: State, k: nat, lo: nat, hi: nat)
      requires Linked(s, k) && Kept(s, s1, {k}) && lo <= hi && Slid(s1, s2, k, lo, hi)
      ensures Persists(s, s2, {})
    {
      forall j: nat | j < |s.b| && Taken(s, j) ensures LiveAt(s2, s.b[j].baseAddr, s.b[j].size) {
        assert Taken(s1, j);
        assert Taken(s2, Slide(j, lo, hi));
      }
    }

    /** A region goes if one can, and else the block, or as much of it as is wanted, is decommitted; without virtual
        memory only regions go, and what is wanted remains wanted. */
    ghost predicate Outcome(h: Heap, h': Heap, k: nat, size: nat, rest: nat, region: Option<nat>, trim: bool) {
      && k < |h.s.b| && Persists(h.s, h'.s, {})
      && match region
         case Some(i) =>
           && Releases(h, k, size, trim, i) && Trimmed(h, h', k, i)
           && rest == if useVirtualMemory then size - (h.regions[i].reserveTop - h.s.b[k].baseAddr) else size
         case None =>
           && (forall i: nat :: !Releases(h, k, size, trim, i)) && h'.regions == h.regions && Kept(h.s, h'.s, {})
           && rest == (if useVirtualMemory then size - Min(h.s.b[k].size, size) else size)
           && P(h'.s) == if !useVirtualMemory then P(h.s)
                         else Paint(P(h.s), k, k + Min(h.s.b[k].size, size), Free(false))
    }

    lemma OutcomeIs(h: Heap, h': Heap, k: nat, size: nat, rest: nat, region: Option<nat>, trim: bool)
      requires Outcome(h, h', k, size, rest, region, trim)
      ensures DecommittedOrReleased(h, h', k, size, trim) && Persists(h.s, h'.s, {})
    {
      hide P, Releases, Trimmed, Persists, Kept;
    }

    /** The body of the loop of Decommit. The page run starts where its region starts, or behind: there is never
        anything to be split off in front of the region. */
    method DecommitOrRelease(block: nat, decommitSize: nat, trim: bool) returns (rest: nat, region: Option<nat>)
      requires Valid() && Linked(S(), block) && block < |blocks| && blocks[block].committed && decommitSize > 0
      modifies this
      ensures Outcome(old(H()), H(), block, decommitSize, rest, region, trim) && Valid()
    {
      hide Sound, P, RegionsOk, Releases, Trimmed, Persists, Kept, Linked;
      if useVirtualMemory {
        rest, region := DecommitVirtual(block, decommitSize, trim);
      } else {
        region := ReleaseWhole(block, decommitSize, trim);
        rest := decommitSize;
      }
    }

    // ----- Decommit

    /** All that the region has committed is the block. */
    static ghost predicate IsWhole(h: Heap, k: nat, i: nat) {
      && k < |h.s.b| && i < |h.regions| && h.s.b[k].baseAddr == h.regions[i].baseAddr
      && h.regions[i].commitTop == h.s.b[k].baseAddr + h.s.b[k].size
    }

    /** Decommit can do something with the block: any with virtual memory, and else one that is a region. */
    ghost predicate Goes(h: Heap, k: nat) {
      useVirtualMemory || exists i: nat :: IsWhole(h, k, i)
    }

    /** All committed free blocks that can go are in the first n lists. */
    ghost predicate GoBelow(h: Heap, n: nat) {
      forall k :: 0 <= k < |h.s.b| && h.s.b[k].linked && h.s.b[k].committed && h.s.b[k].size > 0 && Goes(h, k) ==>
          GetFreeListIndex(h.s.b[k].size) < n
    }

    method CanGo(block: nat) returns (goes: bool)
      requires Valid() && Linked(S(), block) && block < |blocks|
      ensures goes <==> Goes(H(), block)
    {
      hide Ok, P, AllCommitted, Unshared, RegionsOk, Linked;
      if useVirtualMemory { return true; }
      var found := AddrToRegion(blocks[block].baseAddr);
      RegionOfBlock(block, found);
      var r := regions[found.value];
      goes := blocks[block].baseAddr == r.baseAddr && r.commitTop == blocks[block].baseAddr + blocks[block].size;
      assert goes ==> IsWhole(H(), block, found.value);
    }

    /** The last block of a list that is committed and can go. */
    method LastToGo(i: nat) returns (block: Option<nat>, ghost at: nat)
      requires Valid() && i < |freelists|
      ensures block.Some? ==> IsLastToGo(H(), i, at) && block.value == freelists[i][at]
      ensures block.None? ==> forall q :: 0 <= q < |freelists[i]| ==>
                freelists[i][q] < |blocks| && !(blocks[freelists[i][q]].committed && Goes(H(), freelists[i][q]))
    {
      hide Ok, AllCommitted, Unshared, RegionsOk, Goes;
      var freelist := freelists[i];
      var q: nat := |freelist|;
      while q > 0
        invariant q <= |freelist|
        invariant forall r :: q <= r < |freelist| ==>
                    freelist[r] < |blocks| && !(blocks[freelist[r]].committed && Goes(H(), freelist[r]))
      {
        q := q - 1;
        InList(S(), i, q);
        if blocks[freelist[q]].committed {
          var goes := CanGo(freelist[q]);
          if goes { return Some(freelist[q]), q; }
        }
      }
      block, at := None, 0;
    }

    ghost predicate IsLastToGo(h: Heap, i: nat, q: nat) {
      && i < |h.s.l| && q < |h.s.l[i]|
      && FreeCommitted(h, h.s.l[i][q]) && Goes(h, h.s.l[i][q])
      && forall r :: q < r < |h.s.l[i]| ==> !(FreeCommitted(h, h.s.l[i][r]) && Goes(h, h.s.l[i][r]))
    }

    /** No larger block can go. */
    ghost predicate LargestToGo(h: Heap, k: nat) {
      && FreeCommitted(h, k) && Goes(h, k)
      && forall m: nat :: FreeCommitted(h, m) && Goes(h, m) ==> h.s.b[m].size <= h.s.b[k].size
    }

    lemma LastIsLargest(h: Heap, i: nat, q: nat)
      requires Ok(h.s, |h.s.b|) && GoBelow(h, i + 1) && IsLastToGo(h, i, q)
      ensures LargestToGo(h, h.s.l[i][q])
    {
      hide Tiles, Tags, Coalesced, Based, Addressed, Clean, Distinct, Goes, GetFreeListIndex;
      var s := h.s;
      forall m: nat | FreeCommitted(h, m) && Goes(h, m) ensures s.b[m].size <= s.b[s.l[i][q]].size {
        assert InSome(s.l, m);
        var j :| 0 <= j < |s.l| && m in s.l[j];
        var p :| 0 <= p < |s.l[j]| && s.l[j][p] == m;
        assert RightList(s.b[s.l[j][p]], j);
        SmallerFirst(s, j, p, i, q);
      }
    }

    lemma AllGoBelow(h: Heap)
      ensures GoBelow(h, NUM_FREE_LISTS)
    {
      hide Goes;
      AllBelow(h.s);
    }

    /** Nothing in the list can go. */
    lemma GoneThrough(h: Heap, i: nat)
      requires Ok(h.s, |h.s.b|) && GoBelow(h, i + 1) && i < |h.s.l|
      requires forall q :: 0 <= q < |h.s.l[i]| ==>
                 h.s.l[i][q] < |h.s.b| && !(h.s.b[h.s.l[i][q]].committed && Goes(h, h.s.l[i][q]))
      ensures GoBelow(h, i)
    {
      hide Tiles, Tags, Coalesced, Based, Addressed, Clean, Distinct, Goes;
      var s := h.s;
      forall k | 0 <= k < |s.b| && s.b[k].linked && s.b[k].committed && s.b[k].size > 0 && Goes(h, k)
        ensures GetFreeListIndex(s.b[k].size) != i
      {
        assert InSome(s.l, k);
        var j :| 0 <= j < |s.l| && k in s.l[j];
        var q :| 0 <= q < |s.l[j]| && s.l[j][q] == k;
        assert RightList(s.b[s.l[j][q]], j);
      }
    }

    /** Step by step, the largest blocks first: regions go, if they can, and else blocks are decommitted, or parts of
        them. */
    ghost predicate GivesBack(h: Heap, h': Heap, steps: nat, trim: bool)
      decreases steps
    {
      if steps == 0 then h' == h
      else exists h1: Heap, k: nat, size: nat ::
             GivesBack(h, h1, steps - 1, trim) && LargestToGo(h1, k) && DecommittedOrReleased(h1, h', k, size, trim)
    }

    static ghost predicate FreeCommitted(h: Heap, k: nat) {
      Linked(h.s, k) && k < |h.s.b| && h.s.b[k].committed
    }

    /** So many of the free committed pages are no more; they are decommitted if no region goes. */
    ghost predicate SoManyLess(h: Heap, h': Heap, n: nat, trim: bool) {
      useVirtualMemory ==>
        && Count(P(h'.s), Free(true)) == Count(P(h.s), Free(true)) - n
        && (!trim ==> h'.regions == h.regions && Kept(h.s, h'.s, {}) && OnlyDecommitted(P(h.s), P(h'.s), n))
    }

    ghost predicate Decommits(h: Heap, h': Heap, size: nat, trim: bool) {
      && (exists steps: nat :: GivesBack(h, h', steps, trim))
      && SoManyLess(h, h', Min(size, Count(P(h.s), Free(true))), trim)
      && (size == 0 ==> h' == h)
      // without virtual memory no region is left that is free as a whole
      && (!useVirtualMemory && size > 0 ==> forall k, i: nat :: FreeCommitted(h', k) ==> !IsWhole(h', k, i))
    }

    lemma Begin(h: Heap, trim: bool)
      requires Ok(h.s, |h.s.b|)
      ensures Persists(h.s, h.s, {}) && SoManyLess(h, h, 0, trim) && GivesBack(h, h, 0, trim)
      ensures GoBelow(h, NUM_FREE_LISTS)
    {
      hide Ok, GoBelow, Persists, Survives, P, Count;
      NothingLost(h.s);
      SurvivorsPersist(h.s, h.s, {}, {});
      NothingYet(h.s);
      AllGoBelow(h);
    }

    lemma MoreGivenBack(h: Heap, h1: Heap, h2: Heap, k: nat, before: nat, rest: nat, wanted: nat, region: Option<nat>,
                        trim: bool, steps: nat, n: nat)
      requires Ok(h1.s, |h1.s.b|) && RegionsOk(h1.s.addr, h1.regions) && Ok(h2.s, |h2.s.b|)
      requires Outcome(h1, h2, k, before, rest, region, trim) && LargestToGo(h1, k)
      requires 0 < before <= wanted
      requires Persists(h.s, h1.s, {}) && SoManyLess(h, h1, wanted - before, trim) && GivesBack(h, h1, steps, trim)
      requires GoBelow(h1, n)
      ensures rest <= before && (useVirtualMemory ==> rest < before) && (!useVirtualMemory ==> rest == before)
      ensures if region.Some? then |h2.regions| < |h1.regions| else useVirtualMemory
      ensures Persists(h.s, h2.s, {}) && SoManyLess(h, h2, wanted - rest, trim) && GivesBack(h, h2, steps + 1, trim)
      ensures |h2.s.l| == NUM_FREE_LISTS && (rest > 0 ==> GoBelow(h2, if region.Some? then NUM_FREE_LISTS else n))
    {
      hide Ok, P, RegionsOk, Persists, SoManyLess, GoBelow, Goes, Releases, Trimmed, Kept, Linked, Count;
      ListCount(h2.s, 1);
      PersistsBoth(h.s, h1.s, h2.s, {}, {});
      NoneAndNone();
      OutcomeIs(h1, h2, k, before, rest, region, trim);
      GivesBackMore(h, h1, h2, k, before, steps, trim);
      if region.Some? {
        Shorter(h1, h2, k, region.value);
        if useVirtualMemory { RegionLess(h, h1, h2, k, before, rest, wanted, region.value, trim); }
        else { NoCount(h, h2, wanted - rest, trim); }
        AllGoBelow(h2);
      } else {
        MustGo(h1, k, before, trim);
        BlockLess(h, h1, h2, k, before, rest, wanted, trim);
        if rest > 0 { StillGoBelow(h1, h2, k, n); }
      }
    }

    static lemma NoneAndNone()
      ensures var none: set<nat> := {}; none + none == none
    {
    }

    lemma GivesBackMore(h: Heap, h1: Heap, h2: Heap, k: nat, size: nat, steps: nat, trim: bool)
      requires GivesBack(h, h1, steps, trim) && LargestToGo(h1, k) && DecommittedOrReleased(h1, h2, k, size, trim)
      ensures GivesBack(h, h2, steps + 1, trim)
    {
      hide DecommittedOrReleased, LargestToGo;
    }

    static lemma Shorter(h: Heap, h': Heap, k: nat, i: nat)
      requires Trimmed(h, h', k, i)
      ensures |h'.regions| == |h.regions| - 1
    {
      hide Cuts, PagesCut, P;
    }

    lemma NoCount(h: Heap, h': Heap, n: nat, trim: bool)
      requires !useVirtualMemory
      ensures SoManyLess(h, h', n, trim)
    {
    }

    /** Without virtual memory a block that can go does go. */
    lemma MustGo(h: Heap, k: nat, size: nat, trim: bool)
      requires Goes(h, k)
      ensures useVirtualMemory || exists i: nat :: Releases(h, k, size, trim, i)
    {
      if !useVirtualMemory {
        var i: nat :| IsWhole(h, k, i);
        assert Releases(h, k, size, trim, i);
      }
    }

    lemma BlockLess(h: Heap, h1: Heap, h2: Heap, k: nat, before: nat, rest: nat, wanted: nat, trim: bool)
      requires Ok(h1.s, |h1.s.b|) && FreeCommitted(h1, k) && 0 < before <= wanted && useVirtualMemory
      requires h2.regions == h1.regions && Kept(h1.s, h2.s, {}) && rest == before - Min(h1.s.b[k].size, before)
      requires P(h2.s) == Paint(P(h1.s), k, k + Min(h1.s.b[k].size, before), Free(false))
      requires SoManyLess(h, h1, wanted - before, trim)
      ensures rest < before && SoManyLess(h, h2, wanted - rest, trim)
    {
      hide Ok, Pages, Kept, Count, Linked;
      LinkedPages(h1.s, |h1.s.b|, k);
      CountPaint(P(h1.s), k, k + Min(h1.s.b[k].size, before), Free(true), Free(false));
      if !trim {
        MoreDecommitted(P(h.s), P(h1.s), P(h2.s), wanted - before, k, k + Min(h1.s.b[k].size, before));
        KeptBoth(h.s, h1.s, h2.s, {}, {});
        NoneAndNone();
      }
    }

    lemma StillGoBelow(h: Heap, h': Heap, k: nat, n: nat)
      requires Ok(h.s, |h.s.b|) && Ok(h'.s, |h'.s.b|) && FreeCommitted(h, k) && useVirtualMemory && GoBelow(h, n)
      requires P(h'.s) == Paint(P(h.s), k, k + h.s.b[k].size, Free(false))
      ensures GoBelow(h', n)
    {
      hide Ok, P, Linked;
      assert CommittedBelow(h.s, n);
      StillBelow(h.s, h'.s, k, n);
    }

    /** The pages of the region are as many as it reserves, and were all free and committed. */
    lemma RegionLess(h: Heap, h1: Heap, h2: Heap, k: nat, before: nat, rest: nat, wanted: nat, i: nat, trim: bool)
      requires Ok(h1.s, |h1.s.b|) && RegionsOk(h1.s.addr, h1.regions) && FreeCommitted(h1, k) && useVirtualMemory
      requires before <= wanted && Releases(h1, k, before, trim, i) && Trimmed(h1, h2, k, i)
      requires rest == before - (h1.regions[i].reserveTop - h1.s.b[k].baseAddr)
      requires SoManyLess(h, h1, wanted - before, trim)
      ensures rest < before && SoManyLess(h, h2, wanted - rest, trim)
    {
      hide Ok, P, RegionsOk, Trimmed, Count, Linked, Kept, OnlyDecommitted;
      ReservesSome(h1.s.addr, h1.regions, i);
      RegionInBlock(h1, k, i, h1.regions[i].reserveTop - h1.regions[i].baseAddr);
      CountTrimmed(h1, h2, k, i, End(h1.regions[i]) - k);
    }

    static lemma RegionInBlock(h: Heap, k: nat, i: nat, size: nat)
      requires Ok(h.s, |h.s.b|) && RegionsOk(h.s.addr, h.regions) && FreeCommitted(h, k) && i < |h.regions|
      requires h.s.b[k].baseAddr == h.regions[i].baseAddr && size == h.regions[i].reserveTop - h.regions[i].baseAddr
      requires size <= h.s.b[k].size
      ensures 0 < size && End(h.regions[i]) == k + size && k + size < |P(h.s)| == |h.s.addr|
      ensures forall j :: k <= j < k + size ==> P(h.s)[j] == Free(true)
    {
      hide Ok, P, RegionsOk, Mapped, Disjoint, Chained;
      LinkedPages(h.s, |h.s.b|, k);
      Lengths(h.s);
      FreeAddresses(h.s, k);
      ReservesSome(h.s.addr, h.regions, i);
      WholeRegion(h.s.addr, h.regions, i, k, k + size);
    }

    static lemma FreeAddresses(s: State, k: nat)
      requires Ok(s, |s.b|) && Linked(s, k)
      ensures k + s.b[k].size < |s.addr|
      ensures forall j :: k <= j < k + s.b[k].size ==> s.addr[j] == s.b[k].baseAddr + (j - k)
    {
      hide Tags, Listed, Clean, Coalesced, Addressed;
      IsHead(s, |s.b|, k);
      Lengths(s);
      forall j | k <= j < k + s.b[k].size ensures s.addr[j] == s.b[k].baseAddr + (j - k) {
        InBlock(s.b, s.o, k, j);
        AddressInBlock(s.b, s.o, s.addr, k, j);
      }
    }

    lemma CountTrimmed(h: Heap, h': Heap, k: nat, i: nat, size: nat)
      requires Ok(h.s, |h.s.b|) && i < |h.regions| && Trimmed(h, h', k, i) && End(h.regions[i]) == k + size
      requires k + size < |P(h.s)| == |h.s.addr| && forall j :: k <= j < k + size ==> P(h.s)[j] == Free(true)
      ensures Count(P(h'.s), Free(true)) == Count(P(h.s), Free(true)) - size
    {
      hide Ok, P, PagesCut, Cuts, Count, Shifted;
      var lo: nat, hi: nat :| Without(h, h', k, i, lo, hi);
      SentinelBehind(h.s, h'.s, k, k + size, lo, hi);
      CountCut(P(h.s), P(h'.s), k, k + size, lo, hi);
    }

    static lemma CountCut(p: seq<Page>, p': seq<Page>, k: nat, n: nat, lo: nat, hi: nat)
      requires k <= lo <= hi && k <= n <= hi <= n + 1 && lo <= k + 1 && PagesCut(p, p', k, lo, hi)
      requires n <= |p| && hi <= |p| && (forall j :: k <= j < n ==> p[j] == Free(true))
      requires hi == n + 1 ==> p[n] == Sentinel
      ensures Count(p', Free(true)) == Count(p, Free(true)) - (n - k)
    {
      hide Count, PagesCut;
      var gap := if k < lo then [Sentinel] else [];
      var rest := RestOfCut(p, p', k, lo, hi);
      CountParts(p[..k], gap, rest);
      CountParts(p[..k], p[k..hi], p[hi..]);
      assert p == p[..k] + p[k..hi] + p[hi..];
      CountGone(p, k, n, hi);
      CountNone(gap, Free(true));
    }

    static lemma CountGone(p: seq<Page>, k: nat, n: nat, hi: nat)
      requires k <= n <= hi <= n + 1 && hi <= |p| && (forall j :: k <= j < n ==> p[j] == Free(true))
      requires hi == n + 1 ==> p[n] == Sentinel
      ensures Count(p[k..hi], Free(true)) == n - k
    {
      hide Count;
      assert p[k..hi] == p[k..n] + p[n..hi];
      CountConcat(p[k..n], p[n..hi], Free(true));
      CountAll(p[k..n], Free(true));
      CountNone(p[n..hi], Free(true));
    }

    static lemma CountParts(p: seq<Page>, q: seq<Page>, r: seq<Page>)
      ensures Count(p + q + r, Free(true)) == Count(p, Free(true)) + Count(q, Free(true)) + Count(r, Free(true))
    {
      hide Count;
      CountConcat(p + q, r, Free(true));
      CountConcat(p, q, Free(true));
    }

    /** What lies behind the cut has as many free committed pages as before. */
    static lemma RestOfCut(p: seq<Page>, p': seq<Page>, k: nat, lo: nat, hi: nat) returns (rest: seq<Page>)
      requires k <= lo <= hi <= |p| && lo <= k + 1 && PagesCut(p, p', k, lo, hi)
      ensures p' == p[..k] + (if k < lo then [Sentinel] else []) + rest
      ensures Count(rest, Free(true)) == Count(p[hi..], Free(true))
    {
      hide Count;
      rest := p'[lo..];
      forall j | 0 <= j < |rest| ensures rest[j] == Free(true) <==> p[hi..][j] == Free(true) {
        assert p'[hi + j - (hi - lo)] == SlidePage(p[hi + j], hi - lo);
      }
      CountSame(rest, p[hi..], Free(true));
    }

    static lemma SentinelBehind(s: State, s': State, k: nat, n: nat, lo: nat, hi: nat)
      requires Ok(s, |s.b|) && Cuts(s.addr, s'.addr, k, n, lo, hi) && n < |P(s)| == |s.addr|
      ensures n <= hi <= n + 1 && k <= lo <= k + 1 && (hi == n + 1 ==> P(s)[n] == Sentinel)
    {
      hide Tiling, Cleared, Tags, Listed, Clean, Coalesced, Based;
    }

    /** Decommit: as many pages as wanted are given back, or all the free committed pages there are, some of them with
        their regions, and the largest blocks first. Without virtual memory, all regions go that are free as a whole, if
        anything is wanted. */
    method Decommit(decommitSize0: nat, trim: bool)
      requires Valid()
      modifies this
      ensures Decommits(old(H()), H(), decommitSize0, trim)
      ensures useVirtualMemory && !trim ==> Survives(old(S()), S(), {})
      ensures Persists(old(S()), S(), {}) && Valid()
    {
      hide Ok, P, AllCommitted, Unshared, RegionsOk, Persists, SoManyLess, GoBelow, GivesBack, GetFreeListIndex, Goes,
           Linked, Survives, Outcome, Decommits;
      ghost var h := H();
      ghost var steps: nat := 0;
      Begin(h, trim);
      ListCount(h.s, 1);
      var decommitSize: nat := decommitSize0;
      var freelist: nat := NUM_FREE_LISTS;
      while freelist > 0 && decommitSize > 0
        invariant Valid() && freelist <= NUM_FREE_LISTS == |freelists| && decommitSize <= decommitSize0
        invariant Persists(h.s, S(), {}) && SoManyLess(h, H(), decommitSize0 - decommitSize, trim)
        invariant GivesBack(h, H(), steps, trim) && (!useVirtualMemory ==> decommitSize == decommitSize0)
        invariant (decommitSize > 0 ==> GoBelow(H(), freelist)) && (decommitSize0 == 0 ==> steps == 0)
        decreases if useVirtualMemory then decommitSize else |regions|, freelist
      {
        ghost var at;
        var block;
        block, at := LastToGo(freelist - 1);
        if block.None? {
          GoneThrough(H(), freelist - 1);
          freelist := freelist - 1;
        } else {
          ghost var h1, before := H(), decommitSize;
          LastIsLargest(h1, freelist - 1, at);
          var region;
          decommitSize, region := DecommitOrRelease(block.value, decommitSize, trim);
          MoreGivenBack(h, h1, H(), block.value, before, decommitSize, decommitSize0, region, trim, steps, freelist);
          steps := steps + 1;
          if region.Some? { freelist := NUM_FREE_LISTS; }
        }
      }
      AllGivenBack(h, H(), decommitSize0, decommitSize, steps, trim);
    }

    lemma AllGivenBack(h: Heap, h': Heap, wanted: nat, rest: nat, steps: nat, trim: bool)
      requires Ok(h.s, |h.s.b|) && AllCommitted(h.s) && Ok(h'.s, |h'.s.b|) && rest <= wanted
      requires GivesBack(h, h', steps, trim) && SoManyLess(h, h', wanted - rest, trim)
      requires (rest > 0 ==> GoBelow(h', 0)) && (!useVirtualMemory ==> rest == wanted) && (wanted == 0 ==> steps == 0)
      ensures Decommits(h, h', wanted, trim)
      ensures useVirtualMemory && !trim ==> Survives(h.s, h'.s, {})
    {
      hide Ok, P, GivesBack, OnlyDecommitted, Count, Kept, AllCommitted, Survives;
      if steps == 0 { NoSteps(h, h', trim); }
      if useVirtualMemory {
        if rest > 0 {
          NoFreeCommitted(h'.s);
          CountNone(P(h'.s), Free(true));
        }
        if !trim { DecommittedKeeps(h.s, h'.s, wanted); }
      } else if rest > 0 {
        NoneGoes(h');
      }
    }

    lemma NoSteps(h: Heap, h': Heap, trim: bool)
      requires GivesBack(h, h', 0, trim)
      ensures h' == h
    {
    }

    lemma NoneGoes(h: Heap)
      requires Ok(h.s, |h.s.b|) && GoBelow(h, 0) && !useVirtualMemory
      ensures forall k, i: nat :: FreeCommitted(h, k) ==> !IsWhole(h, k, i)
    {
      hide Ok;
      forall k, i: nat | FreeCommitted(h, k) ensures !IsWhole(h, k, i) {
        IsHead(h.s, |h.s.b|, k);
        assert IsWhole(h, k, i) ==> Goes(h, k);
      }
    }

    // ----- Whole runs

    /** What a client frees in a run. */
    static ghost function FreedBy(ops: seq<Op>): set<nat> {
      set i | 0 <= i < |ops| && ops[i].FreePages? :: ops[i].item
    }

    static ghost predicate LiveBlock(s: State, k: nat, item: nat) {
      k < |s.b| && Taken(s, k) && s.b[k].baseAddr == item
    }

    static ghost predicate FreeBlockAt(s: State, k: nat, item: nat) {
      k < |s.b| && Linked(s, k) && s.b[k].baseAddr == item && s.b[k].committed
    }

    /** What a step does to the heap. An impossible one does nothing: a client frees only what is in use, and the
        system hands out only pages that are not. */
    ghost predicate Effect(h: Heap, h': Heap, op: Op) {
      match op
      case AllocPages(size, _, alignment) =>
        && h'.regions == h.regions
        && if size == 0 || alignment == 0 then h'.s == h.s
           else if CanMeet(h.s, size, alignment) then exists r: nat :: AlignedBlock(h.s, h'.s, r, size, alignment)
           else h'.s == h.s
      case FreePages(item) =>
        && h'.regions == h.regions
        && (forall k: nat :: LiveBlock(h.s, k, item) ==> P(h'.s) == Paint(P(h.s), k, k + h.s.b[k].size, Free(true)))
        && ((forall k: nat :: !LiveBlock(h.s, k, item)) ==> h'.s == h.s)
      case DecommitPages(size, trim) => Decommits(h, h', size, trim)
      case DecommitAt(item, size, trim) =>
        && (forall k: nat :: FreeBlockAt(h.s, k, item) && size > 0 ==> DecommittedOrReleased(h, h', k, size, trim))
        && ((forall k: nat :: !FreeBlockAt(h.s, k, item)) || size == 0 ==> h' == h)
      case ExpandBy(baseAddr, size, grant, use) =>
        if CanExpand(h.regions, baseAddr, size, grant, use) then Expands(h, h', baseAddr, size, grant, use) else h' == h
    }

    static ghost predicate AlignedBlock(s: State, s': State, r: nat, size: nat, alignment: nat)
      requires alignment > 0
    {
      Allocated(s, s', r, size) && r < |s'.b| && s'.b[r].baseAddr % alignment == 0
    }

    /** A region goes if one can, and else the block, or as much of it as is wanted, is decommitted. */
    ghost predicate DecommittedOrReleased(h: Heap, h': Heap, k: nat, size: nat, trim: bool) {
      || (exists i: nat :: Releases(h, k, size, trim, i) && Trimmed(h, h', k, i))
      || (&& (forall i: nat :: !Releases(h, k, size, trim, i)) && h'.regions == h.regions && k < |h.s.b|
          && P(h'.s) == if !useVirtualMemory then P(h.s)
                        else Paint(P(h.s), k, k + Min(h.s.b[k].size, size), Free(false)))
    }

    ghost predicate Expands(h: Heap, h': Heap, baseAddr: nat, size: nat, grant: Grant, use: Use)
      requires CanExpand(h.regions, baseAddr, size, grant, use)
    {
      var contiguous := Contiguous(h.s.b, baseAddr, grant);
      && (grant.avail > 0 ==> contiguous) && Expanded(h.s, h'.s, baseAddr, size, contiguous, use)
      && h'.regions == Grow(h.regions, OldLength(h.s, contiguous), baseAddr, size, grant.avail, grant.top)
    }

    /** Step by step, with any writes to blocks in use in between. */
    ghost predicate Reaches(h: Heap, h': Heap, ops: seq<Op>)
      decreases |ops|
    {
      if ops == [] then h' == h
      else exists h1: Heap, h2: Heap ::
             && Reaches(h, h1, ops[..|ops| - 1]) && Scribbled(h1.s, h2.s) && h2.regions == h1.regions
             && Effect(h2, h', ops[|ops| - 1])
    }

    predicate Committed(item: nat)
      reads `regions
    {
      exists i :: 0 <= i < |regions| && regions[i].baseAddr <= item < regions[i].commitTop
    }

    /** The block that starts at the address, if there is one. */
    method HeadAt(item: nat) returns (block: Option<nat>)
      requires Valid()
      ensures block.Some? ==>
                block.value < |blocks| && blocks[block.value].size > 0 && blocks[block.value].baseAddr == item
      ensures forall k: nat :: k < |blocks| && (Taken(S(), k) || Linked(S(), k)) && blocks[k].baseAddr == item ==>
                block == Some(k)
    {
      hide Ok, RegionsOk, AllCommitted, Taken, Linked, P, Unshared;
      HeadsCommitted(item);
      if !Committed(item) { return None; }
      OnlyCommitted(item);
      block := BaseAddrToBlock(item);
      HeadsHave(item);
      if block.Some? && (blocks[block.value].size == 0 || blocks[block.value].baseAddr != item) {
        forall k: nat | k < |blocks| && (Taken(S(), k) || Linked(S(), k)) ensures blocks[k].baseAddr != item {
          BlockAddress(S(), k);
          HeadSize(S(), k);
        }
        return None;
      }
    }

    lemma HeadsHave(item: nat)
      requires Valid()
      ensures forall k: nat :: k < |blocks| && (Taken(S(), k) || Linked(S(), k)) && blocks[k].baseAddr == item ==>
                k < |addr| && addr[k] == item > 0
    {
      hide Ok, RegionsOk, AllCommitted, Taken, Linked, P, Unshared;
      forall k: nat | k < |blocks| && (Taken(S(), k) || Linked(S(), k))
        ensures k < |addr| && addr[k] == blocks[k].baseAddr > 0
      {
        BlockAddress(S(), k);
      }
    }

    static lemma HeadSize(s: State, k: nat)
      requires Ok(s, |s.b|) && k < |s.b| && (Taken(s, k) || Linked(s, k))
      ensures s.b[k].size > 0
    {
      hide Ok;
      if Linked(s, k) { IsHead(s, |s.b|, k); }
    }

    lemma HeadsCommitted(item: nat)
      requires Valid()
      ensures forall k: nat :: k < |blocks| && (Taken(S(), k) || Linked(S(), k)) && blocks[k].baseAddr == item ==>
                Committed(item)
    {
      hide Ok, AllCommitted, Taken, Linked, P, Unshared, Disjoint, Chained, Mapped;
      forall k: nat | k < |blocks| && (Taken(S(), k) || Linked(S(), k)) && blocks[k].baseAddr == item
        ensures Committed(item)
      {
        BlockAddress(S(), k);
        var i := PageInRegion(addr, regions, k);
      }
    }

    lemma OnlyCommitted(item: nat)
      requires Valid() && Committed(item)
      ensures NotJustReserved(item)
    {
      hide Sound, Chained, Disjoint;
      var i :| 0 <= i < |regions| && regions[i].baseAddr <= item < regions[i].commitTop;
      assert Mapped(addr, regions[i]);
      forall j | 0 <= j < |regions| && In(regions[j], item) ensures item < regions[j].commitTop {
        OneRegion(addr, regions, i, j, item);
      }
    }

    method PerformAlloc(size: nat, zeroed: bool, alignment: nat)
      requires Valid()
      modifies this
      ensures Effect(old(H()), H(), AllocPages(size, zeroed, alignment)) && Persists(old(S()), S(), {}) && Valid()
    {
      hide Ok, Unshared, AllCommitted, Survives, Allocated, NoneFits, CanMeet, P, RegionsOk, Persists;
      ghost var s := S();
      NothingLost(s);
      if size > 0 && alignment > 0 {
        var block, _ := Allocate(size, zeroed, alignment);
        if block.Some? {
          AllocatedTaken(s, S(), block.value, size);
          assert AlignedBlock(s, S(), block.value, size, alignment);
        }
      }
      SurvivorsPersist(s, S(), {}, {});
    }

    method PerformFree(item: nat)
      requires Valid()
      modifies this
      ensures Effect(old(H()), H(), FreePages(item)) && Persists(old(S()), S(), {item}) && Valid()
    {
      hide Ok, Unshared, AllCommitted, Survives, P, RegionsOk, Persists, Taken;
      ghost var s := S();
      NothingLostBut(s, {});
      var found := HeadAt(item);
      if found.Some? {
        InUse(s, found.value);
        if !blocks[found.value].linked {
          Deallocate(found.value);
          SurvivorsPersist(s, S(), {found.value}, {item});
          return;
        }
      }
      NotLinked(s);
      SurvivorsPersist(s, s, {}, {item});
    }

    static lemma NotLinked(s: State)
      ensures forall k: nat :: k < |s.b| && Taken(s, k) ==> !s.b[k].linked
    {
    }

    method PerformDecommit(item: nat, size: nat, trim: bool)
      requires Valid()
      modifies this
      ensures Effect(old(H()), H(), DecommitAt(item, size, trim)) && Persists(old(S()), S(), {}) && Valid()
    {
      hide Ok, Unshared, AllCommitted, Survives, P, RegionsOk, Persists, Taken, DecommittedOrReleased, Outcome;
      ghost var h := H();
      NothingLostBut(h.s, {});
      SurvivorsPersist(h.s, h.s, {}, {});
      if size > 0 {
        var found := HeadAt(item);
        if found.Some? && blocks[found.value].linked && blocks[found.value].committed {
          assert FreeBlockAt(h.s, found.value, item);
          var rest, region := DecommitOrRelease(found.value, size, trim);
          OutcomeIs(h, H(), found.value, size, rest, region, trim);
        }
      }
    }

    method PerformExpand(baseAddr: nat, size: nat, grant: Grant, use: Use)
      requires Valid()
      modifies this
      ensures Effect(old(H()), H(), ExpandBy(baseAddr, size, grant, use)) && Persists(old(S()), S(), {}) && Valid()
    {
      hide Ok, Unshared, AllCommitted, Survives, P, RegionsOk, Persists, Expanded, Grow, Contiguous, CanExpand;
      ghost var s := S();
      NothingLost(s);
      if CanExpand(regions, baseAddr, size, grant, use) {
        Expand(baseAddr, size, grant, use);
      }
      SurvivorsPersist(s, S(), {}, {});
    }

    method Perform(op: Op)
      requires Valid()
      modifies this
      ensures Effect(old(H()), H(), op)
      ensures Persists(old(S()), S(), if op.FreePages? then {op.item} else {}) && Valid()
    {
      hide Sound, Survives, Persists, RegionsOk, P, OnlyDecommitted, Count;
      match op {
        case AllocPages(size, zeroed, alignment) => PerformAlloc(size, zeroed, alignment);
        case FreePages(item) => PerformFree(item);
        case DecommitPages(size, trim) => Decommit(size, trim);
        case DecommitAt(item, size, trim) => PerformDecommit(item, size, trim);
        case ExpandBy(baseAddr, size, grant, use) => PerformExpand(baseAddr, size, grant, use);
      }
    }

    static lemma NothingLostBut(s: State, x: set<nat>)
      ensures Survives(s, s, x)
    {
    }

    static lemma InUse(s: State, k: nat)
      requires Ok(s, |s.b|)
      ensures Taken(s, k) <==> k < |s.b| && s.b[k].size > 0 && !s.b[k].linked
    {
    }

    /** Over any run of allocations, frees, decommits, removals of regions and growth, with any writes to blocks in use
        in between, the heap stays valid, each step has its effect, and what is in use and not freed stays where it is
        in memory, wherever its slot is. */
    method Run(ops: seq<Op>)
      requires Valid()
      modifies this
      ensures Reaches(old(H()), H(), ops) && Persists(old(S()), S(), FreedBy(ops)) && Valid()
    {
      hide Sound, RegionsOk, Persists, P, Effect, Scribbled, Survives;
      ghost var h := H();
      NothingLostBut(h.s, {});
      SurvivorsPersist(h.s, h.s, {}, FreedBy(ops[..0]));
      var i := 0;
      while i < |ops|
        invariant 0 <= i <= |ops|
        invariant Valid() && Reaches(h, H(), ops[..i]) && Persists(h.s, S(), FreedBy(ops[..i]))
      {
        ghost var h1 := H();
        WriteSome();
        ghost var h2 := H();
        SurvivorsPersist(h1.s, h2.s, {}, {});
        Perform(ops[i]);
        RunStep(h.s, h1.s, h2.s, S(), ops, i);
        OneMoreStep(h, h1, h2, H(), ops, i);
        i := i + 1;
      }
      assert ops[..|ops|] == ops;
    }

    /** Clients write to what they have, or not. */
    method WriteSome()
      requires Valid()
      modifies `zero
      ensures Survives(old(S()), S(), {}) && Scribbled(old(S()), S()) && Valid()
    {
      hide Ok, Survives, RegionsOk;
      NothingLost(S());
      ZeroLength(S(), |blocks|);
      ghost var z: seq<bool> := *;
      if |z| == |zero| == |P(S())| && (forall j :: 0 <= j < |zero| && P(S())[j].Free? ==> z[j] == zero[j]) {
        Scribble(z);
      }
    }

    lemma OneMoreStep(h: Heap, h1: Heap, h2: Heap, h3: Heap, ops: seq<Op>, i: nat)
      requires i < |ops| && Reaches(h, h1, ops[..i]) && Scribbled(h1.s, h2.s) && h2.regions == h1.regions
      requires Effect(h2, h3, ops[i])
      ensures Reaches(h, h3, ops[..i + 1])
    {
      hide Scribbled, Effect;
      assert ops[..i + 1][..i] == ops[..i];
    }

    static lemma RunStep(s: State, s1: State, s2: State, s3: State, ops: seq<Op>, i: nat)
      requires i < |ops| && Persists(s, s1, FreedBy(ops[..i])) && Persists(s1, s2, {})
      requires Persists(s2, s3, if ops[i].FreePages? then {ops[i].item} else {})
      ensures Persists(s, s3, FreedBy(ops[..i + 1]))
    {
      hide Persists;
      var x := FreedBy(ops[..i]);
      var y := if ops[i].FreePages? then {ops[i].item} else {};
      PersistsBoth(s, s1, s2, x, {});
      PersistsBoth(s, s2, s3, x + {}, y);
      forall a | a in x ensures a in FreedBy(ops[..i + 1]) {
        var k :| 0 <= k < i && ops[..i][k].FreePages? && ops[..i][k].item == a;
        assert ops[..i + 1][k].item == a;
      }
      assert ops[..i + 1][i] == ops[i];
      PersistsMore(s, s3, x + {} + y, FreedBy(ops[..i + 1]));
    }

    static lemma PersistsMore(s: State, s': State, x: set<nat>, y: set<nat>)
      requires Persists(s, s', x) && x <= y
      ensures Persists(s, s', y)
    {
      hide Taken, LiveAt;
    }
  }
}
