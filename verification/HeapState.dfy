/** The whole state of the page-block manager, and what its smallest steps keep: unlinking, splitting, merging,
    putting a boundary tag right, changing flags, and linking. */
module HeapState {
  import opened HeapBlocks
  import opened FreeLists

  /** The array, the free lists, the owners of the slots, their addresses, and whether they hold zeroes. */
  datatype State = State(b: seq<HeapBlock>, l: seq<seq<nat>>, o: seq<nat>, addr: seq<nat>, zero: seq<bool>)

  ghost function P(s: State): seq<Page> {
    Pages(s.b, s.o)
  }

  /** The invariant, but for the boundary tag at 'loose'. */
  ghost predicate Ok(s: State, loose: nat) {
    && Tiles(s.b, s.o) && Tags(s.b, s.o, loose)
    && Coalesced(s.o, P(s))
    && Based(s.b, s.o, s.addr) && Addressed(s.addr, P(s))
    && Listed(s.b, s.l)
    && |s.zero| == |s.b| && Clean(s.b, s.zero)
  }

  /** A block that is in no free list: in use, or in the hands of the allocator. */
  ghost predicate Taken(s: State, k: nat) {
    k < |s.b| == |s.o| && s.o[k] == k && s.b[k].size > 0 && !s.b[k].linked
  }

  lemma TakenIs(s: State, k: nat)
    requires Taken(s, k)
    ensures k < |s.b| == |s.o| && s.b[k].size > 0 && !s.b[k].linked && s.o[k] == k
  {
  }

  ghost predicate Linked(s: State, k: nat) {
    k < |s.b| && s.b[k].linked
  }

  /** Taken blocks other than those in x stay as they are, but for their boundary tags. */
  ghost predicate Kept(s: State, s': State, x: set<nat>) {
    && |s'.b| == |s.b| && |s'.o| == |s.o| && s'.addr == s.addr && |s'.zero| == |s.zero|
    && forall j :: 0 <= j < |s.b| && j !in x && Taken(s, j) ==>
         Taken(s', j) && s'.b[j] == s.b[j].(sizePrevious := s'.b[j].sizePrevious)
  }

  lemma KeptBoth(s: State, s1: State, s2: State, x: set<nat>, y: set<nat>)
    requires Kept(s, s1, x) && Kept(s1, s2, y)
    ensures Kept(s, s2, x + y)
  {
    hide Taken;
  }

  lemma KeptOnly(s: State, s': State, x: set<nat>, y: set<nat>)
    requires Kept(s, s', x) && forall j :: j in x && j !in y ==> !Taken(s, j)
    ensures Kept(s, s', y)
  {
    hide Taken;
  }

  // ----- Reading the pages

  lemma Lengths(s: State)
    requires Ok(s, |s.b|)
    ensures |s.o| == |s.addr| == |s.zero| == |s.b| == |P(s)|
  {
  }

  /** Blocks and their pages. */
  lemma PagesAre(s: State, loose: nat, k: nat)
    requires Ok(s, loose) && k < |s.b| && s.o[k] == k && s.b[k].size > 0
    ensures k + s.b[k].size < |s.b| == |s.o| == |P(s)| && s.o[k + s.b[k].size] == k + s.b[k].size
    ensures s.b[k].baseAddr == s.addr[k] > 0
    ensures forall j :: k <= j < k + s.b[k].size ==>
              P(s)[j] == if s.b[k].linked then Free(s.b[k].committed) else Used(k)
  {
    NextHead(s.b, s.o, k);
    PagesOfBlock(s.b, s.o, k);
  }

  lemma IsHead(s: State, loose: nat, k: nat)
    requires Ok(s, loose) && Linked(s, k)
    ensures |s.o| == |s.b| && s.o[k] == k && s.b[k].size > 0 && k + s.b[k].size < |s.b|
    ensures CleanAt(s.b, s.zero, k)
  {
  }

  /** A free page at the start of a block is the start of a free block. */
  lemma FreeHead(s: State, loose: nat, k: nat)
    requires Ok(s, loose) && k < |s.b| && s.o[k] == k
    ensures |s.o| == |P(s)| == |s.b|
    ensures P(s)[k].Free? <==> Linked(s, k)
    ensures P(s)[k].Free? ==> P(s)[k] == Free(s.b[k].committed)
    ensures P(s)[k] == Sentinel <==> s.b[k].size == 0
    ensures P(s)[k].Used? <==> Taken(s, k)
  {
  }

  /** What the boundary tag at k leads to. */
  lemma TagLeadsBack(s: State, loose: nat, k: nat)
    requires Ok(s, loose) && k < |s.b| && s.o[k] == k && k != loose
    ensures |P(s)| == |s.b| == |s.o|
    ensures s.b[k].sizePrevious == 0 ==> k == 0 || P(s)[k - 1] == Sentinel
    ensures s.b[k].sizePrevious > 0 ==>
              var j := k - s.b[k].sizePrevious;
              0 <= j < k && s.o[j] == j && s.b[j].size == s.b[k].sizePrevious && P(s)[k - 1] == P(s)[j] != Sentinel
  {
    assert TagAt(s.b, s.o, k);
    if k > 0 {
      PrevHead(s.b, s.o, k);
      var j := s.o[k - 1];
      if s.b[j].size > 0 { PagesOfBlock(s.b, s.o, j); }
    }
  }

  // ----- The steps

  ghost function Unlink(s: State, i: nat, p: nat): State
    requires i < |s.l| && p < |s.l[i]| && s.l[i][p] < |s.b|
  {
    var k := s.l[i][p];
    s.(b := s.b[k := s.b[k].(linked := false)], l := s.l[i := Removed(s.l[i], p)])
  }

  lemma UnlinkOk(s: State, loose: nat, i: nat, p: nat, k: nat)
    requires Ok(s, loose) && i < |s.l| && p < |s.l[i]| && s.l[i][p] == k
    ensures Linked(s, k)
    ensures var s' := Unlink(s, i, p);
            && Ok(s', loose) && Taken(s', k) && CleanAt(s'.b, s'.zero, k) && Kept(s, s', {k})
            && P(s') == Paint(P(s), k, k + s.b[k].size, Used(k))
  {
    RemovedFromLists(s.b, s.l, i, p, k);
    IsHead(s, loose, k);
    FlagsChanged(s, loose, k, s.b[k].(linked := false));
  }

  /** What a change of the flags of a block means for all but the lists. */
  lemma FlagsChanged(s: State, loose: nat, k: nat, x: HeapBlock)
    requires Ok(s, loose) && k < |s.b| && s.o[k] == k && s.b[k].size > 0
    requires x == s.b[k].(linked := false, committed := x.committed, dirty := x.dirty)
    ensures var b := s.b[k := x];
            && Tiles(b, s.o) && Tags(b, s.o, loose) && Coalesced(s.o, Pages(b, s.o))
            && Based(b, s.o, s.addr) && Addressed(s.addr, Pages(b, s.o)) && Clean(b, s.zero)
            && Pages(b, s.o) == Paint(P(s), k, k + s.b[k].size, Used(k))
  {
    hide Tiling, Cleared, Coalesced, Addressed, Listed, Clean, Tags, Pages, Paint, Based;
    var b := s.b[k := x];
    FreeFlag(s, k);
    FlagsOthers(s, k, x);
    ShapeKept(s.b, b, s.o, loose);
    Repainted(s.b, b, s.o, k);
    PagesAre(s, loose, k);
    CoalescedStill(s.o, P(s), k, k + s.b[k].size, k);
    AddressedStill(s.addr, P(s), k, k + s.b[k].size, Used(k));
  }

  lemma FreeFlag(s: State, k: nat)
    requires Tiles(s.b, s.o) && k < |s.b|
    ensures |s.o| == |s.b| && forall j :: 0 <= j < |s.b| && s.b[j].linked ==> s.b[j].size > 0
  {
  }

  lemma FlagsOthers(s: State, k: nat, x: HeapBlock)
    requires k < |s.b| && !x.linked && x.baseAddr == s.b[k].baseAddr && Based(s.b, s.o, s.addr) && Clean(s.b, s.zero)
    ensures Based(s.b[k := x], s.o, s.addr) && Clean(s.b[k := x], s.zero)
  {
    var b := s.b[k := x];
    forall j | 0 <= j < |b| && b[j].linked ensures CleanAt(b, s.zero, j) {
      assert CleanAt(s.b, s.zero, j);
    }
  }

  ghost function SetFlags(s: State, k: nat, committed: bool, dirty: bool): State
    requires k < |s.b|
  {
    s.(b := s.b[k := s.b[k].(committed := committed, dirty := dirty)])
  }

  lemma SetFlagsOk(s: State, loose: nat, k: nat, committed: bool, dirty: bool)
    requires Ok(s, loose) && Taken(s, k)
    ensures var s' := SetFlags(s, k, committed, dirty);
            Ok(s', loose) && Taken(s', k) && Kept(s, s', {k}) && P(s') == P(s)
  {
    hide Tiles, Tags, Coalesced, Addressed, Based, Clean, Listed, Pages, Paint;
    var s' := SetFlags(s, k, committed, dirty);
    FlagsChanged(s, loose, k, s.b[k].(committed := committed, dirty := dirty));
    PaintSame(s, loose, k);
    ListedStill(s.b, s'.b, s.l);
  }

  lemma PaintSame(s: State, loose: nat, k: nat)
    requires Ok(s, loose) && Taken(s, k)
    ensures Paint(P(s), k, k + s.b[k].size, Used(k)) == P(s)
  {
    PagesAre(s, loose, k);
  }

  ghost function SplitAt(s: State, k: nat, n: nat): State
    requires k < |s.b| && n < s.b[k].size && k + s.b[k].size < |s.b|
  {
    s.(b := SplitBlocks(s.b, k, n), o := SplitOwner(s.o, k, n))
  }

  lemma SplitOk(s: State, loose: nat, k: nat, n: nat)
    requires Ok(s, loose) && Taken(s, k) && 0 < n < s.b[k].size
    ensures k + s.b[k].size < |s.b|
    ensures var s' := SplitAt(s, k, n);
            && Ok(s', loose) && Taken(s', k) && Taken(s', k + n)
            && P(s') == Paint(P(s), k + n, k + s.b[k].size, Used(k + n))
            && Kept(s, s', {k})
            && (CleanAt(s.b, s.zero, k) ==> CleanAt(s'.b, s'.zero, k) && CleanAt(s'.b, s'.zero, k + n))
  {
    hide Tiling, Coalesced, Addressed, Listed, Based, Clean, CleanAt, Cleared, Tags, Pages, Paint, Kept;
    PagesAre(s, loose, k);
    SplitTiles(s.b, s.o, k, n);
    SplitTags(s.b, s.o, k, n, loose);
    SplitPages(s.b, s.o, k, n);
    AddressedStill(s.addr, P(s), k + n, k + s.b[k].size, Used(k + n));
    SplitOthers(s, loose, k, n);
    SplitTaken(s, loose, k, n);
  }

  lemma SplitTaken(s: State, loose: nat, k: nat, n: nat)
    requires Ok(s, loose) && Taken(s, k) && 0 < n < s.b[k].size && k + s.b[k].size < |s.b|
    ensures Taken(SplitAt(s, k, n), k) && Taken(SplitAt(s, k, n), k + n)
  {
    hide Tiling;
    InBlock(s.b, s.o, k, k + n);
  }

  lemma SplitOthers(s: State, loose: nat, k: nat, n: nat)
    requires Ok(s, loose) && Taken(s, k) && 0 < n < s.b[k].size && k + s.b[k].size < |s.b|
    requires P(SplitAt(s, k, n)) == Paint(P(s), k + n, k + s.b[k].size, Used(k + n))
    ensures var s' := SplitAt(s, k, n);
            && Coalesced(s'.o, P(s')) && Based(s'.b, s'.o, s'.addr) && Listed(s'.b, s'.l) && Clean(s'.b, s'.zero)
            && (CleanAt(s.b, s.zero, k) ==> CleanAt(s'.b, s'.zero, k) && CleanAt(s'.b, s'.zero, k + n))
            && Kept(s, s', {k})
  {
    hide Pages, SplitBlocks, SplitOwner, Tiling, Coalesced, Listed, Clean, CleanAt, Based, Addressed, Cleared, Tags;
    PagesAre(s, loose, k);
    InBlock(s.b, s.o, k, k + n);
    InnerSlot(s.b, s.o, k, k + n);
    SplitCoalesced(s.o, P(s), k, n, k + s.b[k].size);
    AddressInBlock(s.b, s.o, s.addr, k, k + n);
    SplitBased(s.b, s.o, s.addr, k, n);
    SplitEntries(s.b, k, n);
    ListedStill(s.b, SplitBlocks(s.b, k, n), s.l);
    SplitClean(s.b, s.zero, k, n);
    SplitKept(s, k, n);
  }

  lemma InnerSlot(b: seq<HeapBlock>, o: seq<nat>, k: nat, j: nat)
    requires Tiles(b, o) && j < |b| && o[j] == k != j
    ensures b[j].size == 0 && !b[j].linked
  {
  }

  /** The entries of the array after a split. */
  lemma SplitEntries(b: seq<HeapBlock>, k: nat, n: nat)
    requires k < |b| && 0 < n < b[k].size && k + b[k].size < |b| && !b[k].linked && !b[k + n].linked
    ensures var b' := SplitBlocks(b, k, n);
            && |b'| == |b|
            && (forall j :: 0 <= j < |b| ==> b'[j].linked == b[j].linked)
            && (forall j :: 0 <= j < |b| && j != k && j != k + n ==> b'[j] == b[j].(sizePrevious := b'[j].sizePrevious))
  {
  }

  lemma SplitCoalesced(o: seq<nat>, p: seq<Page>, k: nat, n: nat, to: nat)
    requires Coalesced(o, p) && k + n < to <= |p|
    ensures Coalesced(SplitOwner(o, k, n), Paint(p, k + n, to, Used(k + n)))
  {
  }

  lemma SplitBased(b: seq<HeapBlock>, o: seq<nat>, addr: seq<nat>, k: nat, n: nat)
    requires Based(b, o, addr) && k < |b| && o[k] == k && 0 < n < b[k].size && k + b[k].size < |b|
    requires addr[k + n] == b[k].baseAddr + n
    ensures Based(SplitBlocks(b, k, n), SplitOwner(o, k, n), addr)
  {
  }

  lemma SplitClean(b: seq<HeapBlock>, zero: seq<bool>, k: nat, n: nat)
    requires k < |b| && 0 < n < b[k].size && k + b[k].size < |b| && !b[k].linked && !b[k + n].linked && Clean(b, zero)
    ensures var b' := SplitBlocks(b, k, n);
            && Clean(b', zero)
            && (CleanAt(b, zero, k) ==> CleanAt(b', zero, k) && CleanAt(b', zero, k + n))
  {
    SplitEntries(b, k, n);
    var b' := SplitBlocks(b, k, n);
    forall j | 0 <= j < |b'| && b'[j].linked ensures CleanAt(b', zero, j) {
      assert CleanAt(b, zero, j);
    }
  }

  lemma SplitKept(s: State, k: nat, n: nat)
    requires Taken(s, k) && 0 < n < s.b[k].size && k + s.b[k].size < |s.b| && s.o[k + n] == k && !s.b[k + n].linked
    ensures Kept(s, SplitAt(s, k, n), {k})
  {
    SplitEntries(s.b, k, n);
  }

  ghost function Merge(s: State, k: nat, n: nat): State
    requires k < |s.b| && n < |s.b|
  {
    s.(b := MergeBlocks(s.b, k, n), o := MergeOwner(s.o, k, n))
  }

  lemma MergeOk(s: State, loose: nat, k: nat, n: nat)
    requires Ok(s, loose) && Taken(s, k) && Taken(s, n) && n == k + s.b[k].size
    requires loose == n || loose >= |s.b|
    ensures var s' := Merge(s, k, n);
            && Ok(s', n + s.b[n].size) && Taken(s', k) && Kept(s, s', {k, n})
            && P(s') == Paint(P(s), n, n + s.b[n].size, Used(k))
  {
    hide Tiling, Coalesced, Addressed, Listed, Based, Clean, CleanAt, Cleared, Tags, Pages, MergeBlocks, MergeOwner,
         Paint, Kept, Taken;
    TakenIs(s, k);
    TakenIs(s, n);
    PagesAre(s, loose, n);
    MergeTiles(s.b, s.o, k, n);
    MergeTags(s.b, s.o, k, n, loose);
    MergePages(s.b, s.o, k, n);
    AddressedStill(s.addr, P(s), n, n + s.b[n].size, Used(k));
    MergeCoalesced(s.o, P(s), k, n, n + s.b[n].size);
    MergeOthers(s, k, n);
    MergeListed(s, k, n);
  }

  lemma MergeListed(s: State, k: nat, n: nat)
    requires Taken(s, k) && Taken(s, n) && Listed(s.b, s.l)
    ensures Listed(MergeBlocks(s.b, k, n), s.l)
  {
    hide Listed;
    ListedStill(s.b, MergeBlocks(s.b, k, n), s.l);
  }

  lemma MergeCoalesced(o: seq<nat>, p: seq<Page>, k: nat, n: nat, to: nat)
    requires Coalesced(o, p) && k < n < |o| && o[k] == k
    ensures Coalesced(MergeOwner(o, k, n), Paint(p, n, to, Used(k)))
  {
  }

  lemma MergeOthers(s: State, k: nat, n: nat)
    requires Taken(s, k) && Taken(s, n) && k < n && Based(s.b, s.o, s.addr) && Clean(s.b, s.zero)
    ensures var s' := Merge(s, k, n);
            && |s'.b| == |s.b| && |s'.o| == |s.o|
            && (forall j :: 0 <= j < |s.b| ==> s'.b[j].linked == s.b[j].linked)
            && (forall j :: 0 <= j < |s.b| && s.b[j].linked ==> s'.b[j] == s.b[j])
            && Based(s'.b, s'.o, s'.addr) && Clean(s'.b, s'.zero) && Taken(s', k) && Kept(s, s', {k, n})
            && s'.b[k] == s.b[k].(size := s.b[k].size + s.b[n].size)
  {
    var s' := Merge(s, k, n);
    forall j | 0 <= j < |s'.b| && s'.b[j].linked ensures CleanAt(s'.b, s'.zero, j) {
      assert CleanAt(s.b, s.zero, j);
    }
  }

  ghost function Fix(s: State, k: nat): State
    requires k < |s.b| && k + s.b[k].size < |s.b|
  {
    s.(b := FixTag(s.b, k))
  }

  lemma FixOk(s: State, loose: nat, k: nat)
    requires Ok(s, loose) && Taken(s, k)
    ensures k + s.b[k].size < |s.b|
    ensures var s' := Fix(s, k);
            && Ok(s', if loose == k + s.b[k].size then |s.b| else loose) && Taken(s', k) && P(s') == P(s)
            && Kept(s, s', {}) && s'.b[k].size == s.b[k].size
            && (CleanAt(s.b, s.zero, k) ==> CleanAt(s'.b, s'.zero, k))
  {
    hide Tiling, Coalesced, Addressed, Listed, Based, Clean, CleanAt, Cleared, Tags, Pages, FixTag, Kept;
    TagFixed(s.b, s.o, k, loose);
    FixOthers(s, k);
    ListedStill(s.b, FixTag(s.b, k), s.l);
  }

  lemma FixOthers(s: State, k: nat)
    requires Taken(s, k) && k + s.b[k].size < |s.b| && Based(s.b, s.o, s.addr) && Clean(s.b, s.zero)
    ensures var s' := Fix(s, k);
            && |s'.b| == |s.b|
            && (forall j :: 0 <= j < |s.b| ==> s'.b[j] == s.b[j].(sizePrevious := s'.b[j].sizePrevious))
            && Based(s'.b, s'.o, s'.addr) && Clean(s'.b, s'.zero) && Taken(s', k) && Kept(s, s', {})
            && (CleanAt(s.b, s.zero, k) ==> CleanAt(s'.b, s'.zero, k))
  {
    var s' := Fix(s, k);
    forall j | 0 <= j < |s'.b| && s'.b[j].linked ensures CleanAt(s'.b, s'.zero, j) {
      assert CleanAt(s.b, s.zero, j);
    }
  }

  ghost function Link(s: State, k: nat, i: nat, p: nat): State
    requires k < |s.b| && i < |s.l| && p <= |s.l[i]|
  {
    s.(b := s.b[k := s.b[k].(linked := true)], l := s.l[i := Inserted(s.l[i], p, k)])
  }

  /** No neighbour of the block is free and alike. */
  ghost predicate Apart(s: State, k: nat, c: bool)
    requires k < |s.b|
  {
    && (0 < k <= |s.o| ==> P(s)[k - 1] != Free(c))
    && (k + s.b[k].size < |s.o| ==> P(s)[k + s.b[k].size] != Free(c))
  }

  lemma LinkOk(s: State, loose: nat, k: nat, i: nat, p: nat)
    requires Ok(s, loose) && Taken(s, k) && CleanAt(s.b, s.zero, k) && Apart(s, k, s.b[k].committed)
    requires i < |s.l| && p <= |s.l[i]| && RightList(s.b[k].(linked := true), i) && Fitting(s.b, s.l[i], p, k)
    ensures var s' := Link(s, k, i, p);
            && Ok(s', loose) && P(s') == Paint(P(s), k, k + s.b[k].size, Free(s.b[k].committed)) && Kept(s, s', {k})
  {
    hide Tiling, Cleared, Coalesced, Addressed, Listed, RightList, Fitting, CleanAt, Clean, Tags, Pages, Paint, Kept,
         Taken, SameShape;
    TakenIs(s, k);
    LinkShape(s, k, i, p);
    var s' := Link(s, k, i, p);
    var c := s.b[k].committed;
    ShapeKept(s.b, s'.b, s.o, loose);
    Repainted(s.b, s'.b, s.o, k);
    PagesAre(s, loose, k);
    CoalescedFree(s.b, s.o, k, c);
    AddressedStill(s.addr, P(s), k, k + s.b[k].size, Free(c));
    InsertedInLists(s.b, s.l, i, p, k);
    LinkClean(s.b, s.zero, k);
    LinkKept(s, k, i, p);
  }

  lemma LinkShape(s: State, k: nat, i: nat, p: nat)
    requires Tiles(s.b, s.o) && k < |s.b| && s.b[k].size > 0 && i < |s.l| && p <= |s.l[i]|
    ensures SameShape(s.b, Link(s, k, i, p).b)
  {
    FreeFlag(s, k);
  }

  lemma LinkKept(s: State, k: nat, i: nat, p: nat)
    requires Taken(s, k) && i < |s.l| && p <= |s.l[i]|
    ensures Kept(s, Link(s, k, i, p), {k})
  {
  }

  lemma LinkClean(b: seq<HeapBlock>, zero: seq<bool>, k: nat)
    requires Clean(b, zero) && k < |b| && CleanAt(b, zero, k)
    ensures Clean(b[k := b[k].(linked := true)], zero)
  {
    var b' := b[k := b[k].(linked := true)];
    forall j | 0 <= j < |b'| && b'[j].linked ensures CleanAt(b', zero, j) {
      assert CleanAt(b, zero, j);
    }
  }

  /** The pages of taken blocks may be written. */
  lemma WriteOk(s: State, loose: nat, zero: seq<bool>)
    requires Ok(s, loose) && |zero| == |s.zero|
    requires forall j :: 0 <= j < |s.zero| && P(s)[j].Free? ==> zero[j] == s.zero[j]
    ensures Ok(s.(zero := zero), loose)
  {
    hide Tiling, Cleared, Coalesced, Addressed, Listed;
    forall k | 0 <= k < |s.b| && s.b[k].linked ensures CleanAt(s.b, zero, k) {
      IsHead(s, loose, k);
      PagesAre(s, loose, k);
      if !s.b[k].committed || !s.b[k].dirty {
        forall j | k <= j < k + s.b[k].size ensures zero[j] {
          assert P(s)[j].Free?;
        }
      }
    }
  }
}
