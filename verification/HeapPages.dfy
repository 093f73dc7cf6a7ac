/** What the pages say about the blocks: since free blocks are coalesced, they determine the partition. */
module HeapPages {
  import opened HeapBlocks
  import opened FreeLists
  import opened HeapState

  // ----- The partition is determined by the pages

  /** Where blocks start, told from the pages alone. */
  ghost predicate StartsAt(p: seq<Page>, j: nat)
    requires j < |p|
  {
    match p[j]
    case Sentinel => true
    case Used(start) => start == j
    case Free(_) => j == 0 || p[j - 1] != p[j]
  }

  lemma InnerOwner(b: seq<HeapBlock>, o: seq<nat>, j: nat)
    requires Tiles(b, o) && j < |o| && o[j] != j
    ensures 0 < j && o[j] < j && o[j - 1] == o[j] && b[o[j]].size > 0
  {
  }

  lemma StartIff(s: State, j: nat)
    requires Ok(s, |s.b|) && j < |s.b|
    ensures |s.o| == |P(s)| == |s.b| && (s.o[j] == j <==> StartsAt(P(s), j))
  {
    hide Tiling, Cleared, Based, Addressed, Listed;
    if s.o[j] != j { InnerOwner(s.b, s.o, j); }
  }

  lemma {:induction false} OwnerFromPages(s: State, s': State, j: nat)
    requires Ok(s, |s.b|) && Ok(s', |s'.b|) && P(s) == P(s') && j < |s.b| == |s'.b|
    ensures |s.o| == |s'.o| == |s.b| && s.o[j] == s'.o[j]
  {
    hide Pages, Tiling, Cleared, Based, Addressed, Listed, Coalesced;
    StartIff(s, j);
    StartIff(s', j);
    if s.o[j] != j {
      InnerOwner(s.b, s.o, j);
      InnerOwner(s'.b, s'.o, j);
      OwnerFromPages(s, s', j - 1);
    }
  }

  lemma SizeFromOwners(s: State, s': State, k: nat)
    requires Ok(s, |s.b|) && Ok(s', |s'.b|) && P(s) == P(s') && s.o == s'.o && k < |s.b| == |s'.b| && s.o[k] == k
    ensures s.b[k].size == s'.b[k].size && s.b[k].linked == s'.b[k].linked
    ensures s.b[k].linked ==> s.b[k].committed == s'.b[k].committed
  {
    hide Tiling, Based, Addressed, Listed, Coalesced;
    assert PageOf(s.b, s.o, k) == P(s)[k] == PageOf(s'.b, s'.o, k);
    if s.b[k].size > 0 {
      NextHead(s.b, s.o, k);
      NextHead(s'.b, s'.o, k);
      if s.b[k].size < s'.b[k].size { InBlock(s'.b, s'.o, k, k + s.b[k].size); }
      if s'.b[k].size < s.b[k].size { InBlock(s.b, s.o, k, k + s'.b[k].size); }
    }
  }

  /** Two heaps with the same pages at the same addresses are partitioned into the same blocks: same starts, same
      sizes, same boundary tags, same blocks free. */
  lemma SamePartition(s: State, s': State)
    requires Ok(s, |s.b|) && Ok(s', |s'.b|) && P(s) == P(s') && s.addr == s'.addr
    ensures s.o == s'.o && |s.b| == |s'.b|
    ensures forall k :: 0 <= k < |s.b| ==> SameBlock(s.b[k], s'.b[k])
  {
    SameLength(s, s');
    hide Pages, Tiling, Addressed, Listed, Coalesced;
    forall j | 0 <= j < |s.b| ensures s.o[j] == s'.o[j] { OwnerFromPages(s, s', j); }
    forall k | 0 <= k < |s.b| ensures SameBlock(s.b[k], s'.b[k]) {
      if s.o[k] == k {
        SizeFromOwners(s, s', k);
        assert TagAt(s.b, s.o, k) && TagAt(s'.b, s'.o, k);
        if k > 0 {
          OwnerIsHead(s.b, s.o, k - 1);
          SizeFromOwners(s, s', s.o[k - 1]);
        }
      }
    }
  }

  ghost predicate SameBlock(x: HeapBlock, y: HeapBlock) {
    && x.baseAddr == y.baseAddr && x.size == y.size && x.sizePrevious == y.sizePrevious && x.linked == y.linked
    && (x.linked ==> x.committed == y.committed)
  }

  lemma SameLength(s: State, s': State)
    requires Ok(s, |s.b|) && Ok(s', |s'.b|) && P(s) == P(s')
    ensures |s.b| == |s'.b| == |s.o| == |s'.o|
  {
  }

  lemma OwnerIsHead(b: seq<HeapBlock>, o: seq<nat>, j: nat)
    requires Tiles(b, o) && j < |o|
    ensures o[j] <= j && o[o[j]] == o[j]
  {
  }

  // ----- Runs of free pages

  /** A run of free pages, committed or not, that nothing can be added to. */
  ghost predicate WholeRun(p: seq<Page>, lo: nat, hi: nat) {
    && lo < hi <= |p| && (forall j :: lo <= j < hi ==> p[j].Free?)
    && (lo == 0 || !p[lo - 1].Free?) && (hi == |p| || !p[hi].Free?)
  }

  lemma OneRun(p: seq<Page>, lo: nat, hi: nat, lo': nat, hi': nat, k: nat)
    requires WholeRun(p, lo, hi) && WholeRun(p, lo', hi') && lo <= k < hi && lo' <= k < hi'
    ensures lo == lo' && hi == hi'
  {
  }

  lemma RunAround(p: seq<Page>, from: nat, to: nat) returns (lo: nat, hi: nat)
    requires from < to <= |p| && forall j :: from <= j < to ==> p[j].Free?
    ensures WholeRun(p, lo, hi) && lo <= from && to <= hi
  {
    lo, hi := from, to;
    while lo > 0 && p[lo - 1].Free?
      invariant lo <= from && forall j :: lo <= j < to ==> p[j].Free?
    {
      lo := lo - 1;
    }
    while hi < |p| && p[hi].Free?
      invariant to <= hi <= |p| && forall j :: lo <= j < hi ==> p[j].Free?
    {
      hi := hi + 1;
    }
  }

  /** The pages of a run lie next to each other in memory. */
  lemma {:induction false} RunAddress(p: seq<Page>, addr: seq<nat>, lo: nat, k: nat)
    requires Addressed(addr, p) && lo <= k < |p| && forall j :: lo <= j <= k ==> p[j].Free?
    ensures addr[k] == addr[lo] + (k - lo)
  {
    if k > lo { RunAddress(p, addr, lo, k - 1); }
  }

  // ----- Counting pages

  ghost function Count(p: seq<Page>, c: Page): nat {
    if p == [] then 0 else Count(p[..|p| - 1], c) + if p[|p| - 1] == c then 1 else 0
  }

  lemma {:induction false} CountUpdate(p: seq<Page>, j: nat, c: Page, d: Page)
    requires j < |p|
    ensures Count(p[j := d], c) == Count(p, c) - (if p[j] == c then 1 else 0) + if d == c then 1 else 0
  {
    var n := |p| - 1;
    if j == n {
      assert p[j := d][..n] == p[..n];
    } else {
      assert p[j := d][..n] == p[..n][j := d];
      CountUpdate(p[..n], j, c, d);
    }
  }

  lemma {:induction false} CountPaint(p: seq<Page>, a: nat, e: nat, c: Page, d: Page)
    requires a <= e <= |p| && c != d && forall j :: a <= j < e ==> p[j] == c
    ensures Count(Paint(p, a, e, d), c) == Count(p, c) - (e - a)
    ensures Count(Paint(p, a, e, d), d) == Count(p, d) + (e - a)
    decreases e - a
  {
    if a == e {
      assert Paint(p, a, e, d) == p;
    } else {
      CountPaint(p, a, e - 1, c, d);
      var q := Paint(p, a, e - 1, d);
      assert Paint(p, a, e, d) == q[e - 1 := d];
      CountUpdate(q, e - 1, c, d);
      CountUpdate(q, e - 1, d, d);
    }
  }

  lemma {:induction false} CountNone(p: seq<Page>, c: Page)
    requires forall j :: 0 <= j < |p| ==> p[j] != c
    ensures Count(p, c) == 0
  {
    if p != [] { CountNone(p[..|p| - 1], c); }
  }

  lemma {:induction false} CountConcat(p: seq<Page>, q: seq<Page>, c: Page)
    ensures Count(p + q, c) == Count(p, c) + Count(q, c)
  {
    if q == [] {
      assert p + q == p;
    } else {
      assert (p + q)[..|p + q| - 1] == p + q[..|q| - 1];
      CountConcat(p, q[..|q| - 1], c);
    }
  }

  lemma {:induction false} CountAll(p: seq<Page>, c: Page)
    requires forall j :: 0 <= j < |p| ==> p[j] == c
    ensures Count(p, c) == |p|
  {
    if p != [] { CountAll(p[..|p| - 1], c); }
  }

  lemma {:induction false} CountSame(p: seq<Page>, q: seq<Page>, c: Page)
    requires |p| == |q| && forall j :: 0 <= j < |p| ==> (p[j] == c <==> q[j] == c)
    ensures Count(p, c) == Count(q, c)
  {
    if p != [] { CountSame(p[..|p| - 1], q[..|q| - 1], c); }
  }

  // ----- Decommitting a whole block leaves the other committed free blocks alone

  /** A committed free block is the same in any heap with these pages around it. */
  lemma SameRun(s: State, s': State, block: nat, k: nat)
    requires Ok(s, |s.b|) && Ok(s', |s'.b|) && Linked(s, block) && s.b[block].committed
    requires P(s') == Paint(P(s), block, block + s.b[block].size, Free(false))
    requires Linked(s', k) && s'.b[k].committed
    ensures Linked(s, k) && s.b[k].committed && s.b[k].size == s'.b[k].size
  {
    hide Ok, Pages;
    SameStart(s, s', block, k);
    Ends(s, k);
    Ends(s', k);
    Ends(s, block);
  }

  lemma Ends(s: State, k: nat)
    requires Ok(s, |s.b|) && Linked(s, k)
    ensures |P(s)| == |s.b| && k + s.b[k].size < |s.b| && P(s)[k] == Free(s.b[k].committed)
    ensures s.b[k].size > 0 && forall j :: k <= j < k + s.b[k].size ==> P(s)[j] == P(s)[k]
    ensures P(s)[k + s.b[k].size] != P(s)[k] && (k > 0 ==> P(s)[k - 1] != P(s)[k])
  {
    hide Tiling, Cleared, Based, Addressed, Listed;
    IsHead(s, |s.b|, k);
    PagesAre(s, |s.b|, k);
    assert P(s)[k + s.b[k].size - 1] == P(s)[k];
  }

  lemma SameStart(s: State, s': State, block: nat, k: nat)
    requires Ok(s, |s.b|) && Ok(s', |s'.b|) && Linked(s, block) && s.b[block].committed
    requires P(s') == Paint(P(s), block, block + s.b[block].size, Free(false))
    requires Linked(s', k) && s'.b[k].committed
    ensures Linked(s, k) && s.b[k].committed
  {
    hide Pages, Tiling, Cleared, Based, Addressed, Listed;
    Ends(s', k);
    IsHead(s', |s'.b|, k);
    StartIff(s', k);
    StartIff(s, k);
    Ends(s, block);
    FreeHeadIs(s, k);
  }

  lemma FreeHeadIs(s: State, k: nat)
    requires Ok(s, |s.b|) && k < |s.b|
    ensures |P(s)| == |s.b| == |s.o| && (s.o[k] == k && P(s)[k] == Free(true) ==> Linked(s, k) && s.b[k].committed)
  {
    hide Tiling, Cleared, Based, Addressed, Listed;
    if s.o[k] == k { FreeHead(s, |s.b|, k); }
  }
}
