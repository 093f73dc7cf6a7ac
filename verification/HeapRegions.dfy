/** The regions of MMgc/GCHeap.h: stretches of reserved memory, the committed pages of which are in the block array, one
    region after another, with a sentinel between two of them unless they are contiguous. */
module HeapRegions {
  /** All but blockId, the slot of the first page, are addresses, in pages. */
  datatype Region = Region(baseAddr: nat, reserveTop: nat, commitTop: nat, blockId: nat)

  /** The slot behind the last page. */
  function End(r: Region): int {
    r.blockId + (r.commitTop - r.baseAddr)
  }

  predicate In(r: Region, item: nat) {
    r.baseAddr <= item < r.reserveTop
  }

  /** The committed pages of the region are in the array, one after another. */
  ghost predicate Mapped(addr: seq<nat>, r: Region) {
    && 0 < r.baseAddr < r.commitTop <= r.reserveTop && End(r) < |addr|
    && forall j :: r.blockId <= j < End(r) ==> addr[j] == r.baseAddr + (j - r.blockId)
  }

  ghost predicate Disjoint(r: Region, r': Region) {
    r.reserveTop <= r'.baseAddr || r'.reserveTop <= r.baseAddr
  }

  /** The region starts where the one before ends, or behind a sentinel there. */
  ghost predicate Follows(addr: seq<nat>, end: int, r: Region) {
    r.blockId == end || (r.blockId == end + 1 && 0 <= end < |addr| && addr[end] == 0)
  }

  ghost predicate Chained(addr: seq<nat>, rs: seq<Region>) {
    if rs == [] then addr == []
    else
      && rs[0].blockId == 0 && (forall i :: 0 < i < |rs| ==> Follows(addr, End(rs[i - 1]), rs[i]))
      && 0 < |addr| && End(rs[|rs| - 1]) == |addr| - 1 && addr[|addr| - 1] == 0
  }

  ghost predicate RegionsOk(addr: seq<nat>, rs: seq<Region>) {
    && (forall i :: 0 <= i < |rs| ==> Mapped(addr, rs[i]))
    && (forall i, j :: 0 <= i < j < |rs| ==> Disjoint(rs[i], rs[j]))
    && Chained(addr, rs)
  }

  /** Nothing is reserved that is not committed, as without virtual memory. */
  ghost predicate Exact(rs: seq<Region>) {
    forall i :: 0 <= i < |rs| ==> rs[i].reserveTop == rs[i].commitTop
  }

  // ----- What the regions say about the array

  lemma {:induction false} IdsIncrease(addr: seq<nat>, rs: seq<Region>, i: nat, j: nat)
    requires RegionsOk(addr, rs) && i < j < |rs|
    ensures End(rs[i]) <= rs[j].blockId && rs[i].blockId < rs[j].blockId
  {
    assert Mapped(addr, rs[i]) && Mapped(addr, rs[j - 1]) && Follows(addr, End(rs[j - 1]), rs[j]);
    if i < j - 1 { IdsIncrease(addr, rs, i, j - 1); }
  }

  lemma IdsAscend(addr: seq<nat>, rs: seq<Region>)
    requires RegionsOk(addr, rs)
    ensures forall i, j :: 0 <= i < j < |rs| ==> rs[i].blockId < rs[j].blockId
  {
    hide RegionsOk;
    forall i, j | 0 <= i < j < |rs| ensures rs[i].blockId < rs[j].blockId { IdsIncrease(addr, rs, i, j); }
  }

  lemma ReservesMore(addr: seq<nat>, r: Region)
    requires Mapped(addr, r)
    ensures forall item: nat :: r.baseAddr <= item < r.commitTop ==> In(r, item)
  {
  }

  /** Each page of the array belongs to a region. */
  lemma PageInRegion(addr: seq<nat>, rs: seq<Region>, j: nat) returns (i: nat)
    requires RegionsOk(addr, rs) && j < |addr| && addr[j] > 0
    ensures i < |rs| && rs[i].blockId <= j < End(rs[i]) && addr[j] == rs[i].baseAddr + (j - rs[i].blockId)
  {
    i := 0;
    while End(rs[i]) <= j
      invariant i < |rs| && rs[i].blockId <= j
      decreases |rs| - i
    {
      assert i + 1 < |rs|;
      assert Follows(addr, End(rs[i]), rs[i + 1]);
      i := i + 1;
    }
    assert Mapped(addr, rs[i]);
  }

  lemma OneRegion(addr: seq<nat>, rs: seq<Region>, i: nat, j: nat, item: nat)
    requires RegionsOk(addr, rs) && i < |rs| && j < |rs| && In(rs[i], item) && In(rs[j], item)
    ensures i == j
  {
    assert i < j ==> Disjoint(rs[i], rs[j]);
    assert j < i ==> Disjoint(rs[j], rs[i]);
  }

  /** The page at a slot is in a region only if the slot is among those of the region. */
  lemma SlotInRegion(addr: seq<nat>, rs: seq<Region>, i: nat, j: nat)
    requires RegionsOk(addr, rs) && i < |rs| && j < |addr| && In(rs[i], addr[j])
    ensures rs[i].blockId <= j < End(rs[i]) && addr[j] == rs[i].baseAddr + (j - rs[i].blockId)
    ensures addr[j] < rs[i].commitTop
  {
    assert Mapped(addr, rs[i]);
    var i' := PageInRegion(addr, rs, j);
    assert Mapped(addr, rs[i']);
    OneRegion(addr, rs, i, i', addr[j]);
  }

  /** The slot of a committed page, as it is computed from its address. */
  lemma SlotOfPage(addr: seq<nat>, rs: seq<Region>, i: nat, item: nat)
    requires RegionsOk(addr, rs) && i < |rs| && rs[i].baseAddr <= item < rs[i].commitTop
    ensures var j := rs[i].blockId + (item - rs[i].baseAddr); j < |addr| && addr[j] == item > 0
  {
    assert Mapped(addr, rs[i]);
  }

  lemma ReservesSome(addr: seq<nat>, rs: seq<Region>, i: nat)
    requires RegionsOk(addr, rs) && i < |rs|
    ensures rs[i].baseAddr < rs[i].commitTop <= rs[i].reserveTop
  {
    assert Mapped(addr, rs[i]);
  }

  /** A run of pages that reaches from the start of a region to the end of its reserve is the whole region. */
  lemma WholeRegion(addr: seq<nat>, rs: seq<Region>, i: nat, k: nat, n: nat)
    requires RegionsOk(addr, rs) && i < |rs| && k < n < |addr|
    requires forall j :: k <= j < n ==> addr[j] == rs[i].baseAddr + (j - k)
    requires rs[i].reserveTop == rs[i].baseAddr + (n - k)
    ensures rs[i].blockId == k && End(rs[i]) == n && rs[i].commitTop == rs[i].reserveTop
  {
    assert Mapped(addr, rs[i]);
    SlotInRegion(addr, rs, i, k);
    SlotInRegion(addr, rs, i, n - 1);
  }

  // ----- Growth

  /** The last region takes in 'avail' pages of its reserve; the rest of the new pages form a region of their own. */
  function Grow(rs: seq<Region>, n: nat, base: nat, size: nat, avail: nat, top: nat): seq<Region>
    requires avail <= size && (avail > 0 ==> rs != [])
  {
    var rs' := if avail == 0 then rs
               else rs[..|rs| - 1] + [rs[|rs| - 1].(commitTop := rs[|rs| - 1].commitTop + avail)];
    if avail < size then rs' + [Region(base + avail, top, base + size, n + avail)] else rs'
  }

  /** What the operating system grants: reserved pages of the last region, and new ones that are in no region. */
  predicate Grantable(rs: seq<Region>, base: nat, size: nat, avail: nat, top: nat) {
    && avail <= size && 0 < base
    && (avail > 0 ==>
          rs != [] && base == rs[|rs| - 1].commitTop && base + avail <= rs[|rs| - 1].reserveTop
          && (avail < size ==> base + avail == rs[|rs| - 1].reserveTop))
    && (avail < size ==>
          base + size <= top && forall i :: 0 <= i < |rs| ==> top <= rs[i].baseAddr || rs[i].reserveTop <= base + avail)
  }

  /** Reserved pages of the last region continue the array: what precedes them is its last page. */
  lemma LastIsLast(addr: seq<nat>, rs: seq<Region>)
    requires RegionsOk(addr, rs) && rs != []
    ensures 2 <= |addr| && addr[|addr| - 2] == rs[|rs| - 1].commitTop - 1 > 0 && addr[|addr| - 1] == 0
  {
    assert Mapped(addr, rs[|rs| - 1]);
  }

  lemma NoRegions()
    ensures RegionsOk([], [])
  {
  }

  lemma NoRegionsNoBlocks(addr: seq<nat>, rs: seq<Region>)
    requires RegionsOk(addr, rs)
    ensures rs == [] <==> addr == []
  {
  }

  /** Granted pages are not in the array. */
  lemma Reserved(addr: seq<nat>, rs: seq<Region>, i: nat, base: nat, size: nat, avail: nat, top: nat, a: nat)
    requires RegionsOk(addr, rs) && Grantable(rs, base, size, avail, top) && i < |rs|
    requires rs[i].baseAddr <= a < rs[i].commitTop
    ensures !(base <= a < base + size)
  {
    assert Mapped(addr, rs[i]) && Mapped(addr, rs[|rs| - 1]);
    if i < |rs| - 1 { assert Disjoint(rs[i], rs[|rs| - 1]); }
  }

  lemma GrowOk(addr: seq<nat>, rs: seq<Region>, addr': seq<nat>, n: nat, base: nat, size: nat, avail: nat, top: nat)
    requires RegionsOk(addr, rs) && Grantable(rs, base, size, avail, top) && 0 < size
    requires n == |addr| || (n == |addr| - 1 && 0 < n)
    requires avail > 0 ==> n == |addr| - 1
    requires |addr'| == n + size + 1 && addr'[n + size] == 0 && forall j :: 0 <= j < n ==> addr'[j] == addr[j]
    requires forall j :: n <= j < n + size ==> addr'[j] == base + (j - n)
    ensures RegionsOk(addr', Grow(rs, n, base, size, avail, top))
  {
    hide Mapped, Chained, Follows, Disjoint;
    var rs' := Grow(rs, n, base, size, avail, top);
    forall i | 0 <= i < |rs'| ensures Mapped(addr', rs'[i]) {
      if i == |rs| {
        NewMapped(addr', n, base, size, avail, top);
      } else if i == |rs| - 1 && avail > 0 {
        ExtendedMapped(addr, rs, addr', n, base, size, avail);
      } else {
        TopSlot(addr, rs);
        StillMapped(addr, rs, addr', n, i);
      }
    }
    forall i, j | 0 <= i < j < |rs'| ensures Disjoint(rs'[i], rs'[j]) {
      if j < |rs| {
        StillDisjoint(rs[i], rs[j], rs'[i], rs'[j]);
      } else {
        NewDisjoint(rs, n, base, size, avail, top, i);
      }
    }
    GrowChained(addr, rs, addr', n, base, size, avail, top);
  }

  lemma GrowExact(rs: seq<Region>, n: nat, base: nat, size: nat, avail: nat, top: nat)
    requires avail <= size && (avail > 0 ==> rs != [])
    ensures Exact(rs) && avail == 0 && top == base + size ==> Exact(Grow(rs, n, base, size, avail, top))
  {
  }

  lemma TopSlot(addr: seq<nat>, rs: seq<Region>)
    requires RegionsOk(addr, rs) && rs != []
    ensures 0 < |addr|
  {
  }

  lemma NewMapped(addr': seq<nat>, n: nat, base: nat, size: nat, avail: nat, top: nat)
    requires |addr'| == n + size + 1 && forall j :: n <= j < n + size ==> addr'[j] == base + (j - n)
    requires avail < size && 0 < base && base + size <= top
    ensures Mapped(addr', Region(base + avail, top, base + size, n + avail))
  {
  }

  lemma NewDisjoint(rs: seq<Region>, n: nat, base: nat, size: nat, avail: nat, top: nat, i: nat)
    requires Grantable(rs, base, size, avail, top) && avail < size && i < |rs|
    ensures var rs' := Grow(rs, n, base, size, avail, top); |rs'| == |rs| + 1 && Disjoint(rs'[i], rs'[|rs|])
  {
  }

  /** Committed pages are below the top sentinel. */
  lemma StillMapped(addr: seq<nat>, rs: seq<Region>, addr': seq<nat>, n: nat, i: nat)
    requires RegionsOk(addr, rs) && i < |rs| && |addr| - 1 <= n < |addr'|
    requires forall j :: 0 <= j < n ==> j < |addr| && addr'[j] == addr[j]
    ensures End(rs[i]) <= |addr| - 1 && Mapped(addr', rs[i])
  {
    if i < |rs| - 1 { IdsIncrease(addr, rs, i, |rs| - 1); }
    assert Mapped(addr, rs[i]) && Mapped(addr, rs[|rs| - 1]);
  }

  lemma ExtendedMapped(addr: seq<nat>, rs: seq<Region>, addr': seq<nat>, n: nat, base: nat, size: nat, avail: nat)
    requires RegionsOk(addr, rs) && rs != [] && n == |addr| - 1 && 0 < avail <= size
    requires base == rs[|rs| - 1].commitTop && base + avail <= rs[|rs| - 1].reserveTop
    requires |addr'| == n + size + 1 && forall j :: 0 <= j < n ==> addr'[j] == addr[j]
    requires forall j :: n <= j < n + size ==> addr'[j] == base + (j - n)
    ensures Mapped(addr', rs[|rs| - 1].(commitTop := base + avail))
  {
    var r := rs[|rs| - 1];
    assert Mapped(addr, r) && End(r) == n;
  }

  lemma GrowChained(addr: seq<nat>, rs: seq<Region>, addr': seq<nat>, n: nat, base: nat, size: nat, avail: nat,
                    top: nat)
    requires RegionsOk(addr, rs) && Grantable(rs, base, size, avail, top) && 0 < size
    requires n == |addr| || (n == |addr| - 1 && 0 < n)
    requires avail > 0 ==> n == |addr| - 1
    requires |addr'| == n + size + 1 && addr'[n + size] == 0 && forall j :: 0 <= j < n ==> addr'[j] == addr[j]
    ensures Chained(addr', Grow(rs, n, base, size, avail, top))
  {
    hide Mapped, RegionsOk, Follows, Disjoint;
    var rs' := Grow(rs, n, base, size, avail, top);
    if rs == [] { NoRegionsNoBlocks(addr, rs); } else { FirstAndLast(addr, rs); }
    forall i | 0 < i < |rs'| ensures Follows(addr', End(rs'[i - 1]), rs'[i]) {
      if i < |rs| {
        StillFollows(addr, rs, addr', n, i, rs'[i]);
      } else {
        LastFollows(addr, rs, addr', n, rs'[i - 1], rs'[i]);
      }
    }
  }

  lemma StillFollows(addr: seq<nat>, rs: seq<Region>, addr': seq<nat>, n: nat, i: nat, r: Region)
    requires RegionsOk(addr, rs) && 0 < i < |rs| && |addr| - 1 <= n < |addr'| && r.blockId == rs[i].blockId
    requires n <= |addr| && forall j :: 0 <= j < n ==> addr'[j] == addr[j]
    ensures Follows(addr', End(rs[i - 1]), r)
  {
    assert Follows(addr, End(rs[i - 1]), rs[i]) && Mapped(addr, rs[i]);
    StillMapped(addr, rs, addr', n, i);
  }

  /** The new region starts in the place of the top sentinel, or behind it. */
  lemma LastFollows(addr: seq<nat>, rs: seq<Region>, addr': seq<nat>, n: nat, last: Region, r: Region)
    requires RegionsOk(addr, rs) && rs != [] && 0 < n < |addr'|
    requires n == |addr| || n == |addr| - 1
    requires forall j :: 0 <= j < n ==> addr'[j] == addr[j]
    requires r.blockId == End(last) || (End(last) == |addr| - 1 && r.blockId == n)
    ensures Follows(addr', End(last), r)
  {
    LastIsLast(addr, rs);
  }

  // ----- Removal

  /** The region is gone, and the pages of those behind it have moved down by d slots. */
  function Shifted(rs: seq<Region>, i: nat, d: nat): (r: seq<Region>)
    requires i < |rs| && forall j :: i < j < |rs| ==> d <= rs[j].blockId
    ensures |r| == |rs| - 1
    ensures forall j :: 0 <= j < |r| ==> r[j] == if j < i then rs[j] else rs[j + 1].(blockId := rs[j + 1].blockId - d)
  {
    rs[..i] + seq(|rs| - 1 - i, j requires 0 <= j < |rs| - 1 - i =>
                    rs[i + 1 + j].(blockId := rs[i + 1 + j].blockId - d))
  }

  /** The slots from lo up to hi leave the array: those of the region at k, one less if it stood between two others, and
      one more if it stood between sentinels. */
  ghost predicate Cuts(addr: seq<nat>, addr': seq<nat>, k: nat, n: nat, lo: nat, hi: nat) {
    && k <= lo <= k + 1 && k < n <= hi <= n + 1 && hi <= |addr| && n < |addr|
    && (lo == k + 1 <==> 0 < k && addr[k - 1] != 0 && addr[n] != 0)
    && (hi == n + 1 <==> (k == 0 || addr[k - 1] == 0) && addr[n] == 0)
    && |addr'| == |addr| - (hi - lo)
    && (forall j :: 0 <= j < k ==> addr'[j] == addr[j]) && (lo == k + 1 ==> addr'[k] == 0)
    && forall j :: hi <= j < |addr| ==> addr'[j - (hi - lo)] == addr[j]
  }

  lemma StillExact(rs: seq<Region>, i: nat, d: nat)
    requires i < |rs| && forall j :: i < j < |rs| ==> d <= rs[j].blockId
    ensures Exact(rs) ==> Exact(Shifted(rs, i, d))
  {
  }

  lemma ShiftedOk(addr: seq<nat>, rs: seq<Region>, i: nat, addr': seq<nat>, lo: nat, hi: nat)
    requires RegionsOk(addr, rs) && i < |rs| && Cuts(addr, addr', rs[i].blockId, End(rs[i]), lo, hi)
    ensures lo <= hi && forall j :: i < j < |rs| ==> hi - lo <= rs[j].blockId
    ensures RegionsOk(addr', Shifted(rs, i, hi - lo))
  {
    hide Mapped, Chained, Cuts, Follows, Disjoint;
    CutLength(addr, rs, i, addr', lo, hi);
    forall j | i < j < |rs| ensures hi <= rs[j].blockId { Behind(addr, rs, i, addr', lo, hi, j); }
    var rs' := Shifted(rs, i, hi - lo);
    forall j | 0 <= j < |rs'| ensures Mapped(addr', rs'[j]) {
      if j < i { BelowMapped(addr, rs, i, addr', lo, hi, j); } else { BehindMapped(addr, rs, i, addr', lo, hi, j + 1); }
    }
    forall j, m | 0 <= j < m < |rs'| ensures Disjoint(rs'[j], rs'[m]) {
      StillDisjoint(rs[if j < i then j else j + 1], rs[if m < i then m else m + 1], rs'[j], rs'[m]);
    }
    ShiftedChained(addr, rs, i, addr', lo, hi);
  }

  lemma StillDisjoint(r: Region, q: Region, r': Region, q': Region)
    requires Disjoint(r, q) && r'.baseAddr == r.baseAddr && r'.reserveTop == r.reserveTop
    requires q'.baseAddr == q.baseAddr && q'.reserveTop == q.reserveTop
    ensures Disjoint(r', q')
  {
  }

  lemma Behind(addr: seq<nat>, rs: seq<Region>, i: nat, addr': seq<nat>, lo: nat, hi: nat, j: nat)
    requires RegionsOk(addr, rs) && i < j < |rs| && Cuts(addr, addr', rs[i].blockId, End(rs[i]), lo, hi)
    ensures hi <= rs[j].blockId
  {
    IdsIncrease(addr, rs, i, j);
    if i + 1 < j { IdsIncrease(addr, rs, i + 1, j); }
    assert Follows(addr, End(rs[i]), rs[i + 1]) && Mapped(addr, rs[i + 1]) && Mapped(addr, rs[j]);
  }

  lemma BelowMapped(addr: seq<nat>, rs: seq<Region>, i: nat, addr': seq<nat>, lo: nat, hi: nat, j: nat)
    requires RegionsOk(addr, rs) && j < i < |rs| && Cuts(addr, addr', rs[i].blockId, End(rs[i]), lo, hi)
    ensures Mapped(addr', rs[j])
  {
    IdsIncrease(addr, rs, j, i);
    assert Mapped(addr, rs[j]) && Mapped(addr, rs[i]);
    NotAllGone(addr, rs, i, addr', lo, hi);
  }

  /** Something is left behind the regions before: a new sentinel, or one of those around the region. */
  lemma NotAllGone(addr: seq<nat>, rs: seq<Region>, i: nat, addr': seq<nat>, lo: nat, hi: nat)
    requires RegionsOk(addr, rs) && 0 < i < |rs| && Cuts(addr, addr', rs[i].blockId, End(rs[i]), lo, hi)
    ensures 0 <= End(rs[i - 1]) < |addr'| && addr'[End(rs[i - 1])] == 0
  {
    IdsIncrease(addr, rs, i - 1, i);
    assert Follows(addr, End(rs[i - 1]), rs[i]) && Mapped(addr, rs[i]) && Mapped(addr, rs[i - 1]);
    var e := End(rs[i - 1]);
    assert addr[e - 1] > 0;
    if rs[i].blockId == e && lo != e + 1 {
      assert addr'[hi - (hi - lo)] == addr[hi];
    }
  }

  lemma BehindMapped(addr: seq<nat>, rs: seq<Region>, i: nat, addr': seq<nat>, lo: nat, hi: nat, j: nat)
    requires RegionsOk(addr, rs) && i < j < |rs| && Cuts(addr, addr', rs[i].blockId, End(rs[i]), lo, hi)
    ensures hi - lo <= rs[j].blockId && Mapped(addr', rs[j].(blockId := rs[j].blockId - (hi - lo)))
  {
    Behind(addr, rs, i, addr', lo, hi, j);
    assert Mapped(addr, rs[j]);
    var r := rs[j].(blockId := rs[j].blockId - (hi - lo));
    forall m | r.blockId <= m < End(r) ensures addr'[m] == r.baseAddr + (m - r.blockId) {
      assert addr'[m + (hi - lo) - (hi - lo)] == addr[m + (hi - lo)];
    }
  }

  lemma ShiftedChained(addr: seq<nat>, rs: seq<Region>, i: nat, addr': seq<nat>, lo: nat, hi: nat)
    requires RegionsOk(addr, rs) && i < |rs| && Cuts(addr, addr', rs[i].blockId, End(rs[i]), lo, hi)
    requires lo <= hi && forall j :: i < j < |rs| ==> hi <= rs[j].blockId
    ensures Chained(addr', Shifted(rs, i, hi - lo))
  {
    hide Mapped, Disjoint, Cuts, Follows, RegionsOk;
    var rs' := Shifted(rs, i, hi - lo);
    CutLength(addr, rs, i, addr', lo, hi);
    FirstAndLast(addr, rs);
    if rs' != [] {
      if i > 0 { NotAllGone(addr, rs, i, addr', lo, hi); } else { FirstIsFirst(addr, rs, addr', lo, hi); }
      if i < |rs| - 1 { TopStays(addr, rs, i, addr', lo, hi); }
      forall j | 0 < j < |rs'| ensures Follows(addr', End(rs'[j - 1]), rs'[j]) {
        ShiftedFollows(addr, rs, i, addr', lo, hi, j);
      }
    } else {
      AllGone(addr, rs, addr', lo, hi);
    }
  }

  lemma FirstAndLast(addr: seq<nat>, rs: seq<Region>)
    requires RegionsOk(addr, rs) && rs != []
    ensures rs[0].blockId == 0 && End(rs[|rs| - 1]) == |addr| - 1 >= 0
  {
  }

  lemma ShiftedFollows(addr: seq<nat>, rs: seq<Region>, i: nat, addr': seq<nat>, lo: nat, hi: nat, j: nat)
    requires RegionsOk(addr, rs) && i < |rs| && Cuts(addr, addr', rs[i].blockId, End(rs[i]), lo, hi)
    requires lo <= hi && (forall j :: i < j < |rs| ==> hi <= rs[j].blockId) && 0 < j < |rs| - 1
    ensures var rs' := Shifted(rs, i, hi - lo); Follows(addr', End(rs'[j - 1]), rs'[j])
  {
    hide Mapped, Disjoint, Cuts, Chained, RegionsOk;
    if j < i {
      FollowsBelow(addr, rs, i, addr', lo, hi, j);
    } else if j == i {
      NotAllGone(addr, rs, i, addr', lo, hi);
      Junction(addr, rs, i, addr', lo, hi);
    } else {
      FollowsBehind(addr, rs, i, addr', lo, hi, j);
    }
  }

  lemma CutLength(addr: seq<nat>, rs: seq<Region>, i: nat, addr': seq<nat>, lo: nat, hi: nat)
    requires RegionsOk(addr, rs) && i < |rs| && Cuts(addr, addr', rs[i].blockId, End(rs[i]), lo, hi)
    ensures lo <= hi && |addr'| == |addr| - (hi - lo)
    ensures 0 < i == |rs| - 1 ==> |addr'| == End(rs[i - 1]) + 1
  {
    if 0 < i == |rs| - 1 {
      assert Mapped(addr, rs[i - 1]) && Follows(addr, End(rs[i - 1]), rs[i]);
      assert addr[End(rs[i - 1]) - 1] > 0;
    }
  }

  lemma AllGone(addr: seq<nat>, rs: seq<Region>, addr': seq<nat>, lo: nat, hi: nat)
    requires RegionsOk(addr, rs) && |rs| == 1 && Cuts(addr, addr', rs[0].blockId, End(rs[0]), lo, hi)
    ensures addr' == []
  {
  }

  lemma FollowsBelow(addr: seq<nat>, rs: seq<Region>, i: nat, addr': seq<nat>, lo: nat, hi: nat, j: nat)
    requires RegionsOk(addr, rs) && 0 < j < i < |rs| && Cuts(addr, addr', rs[i].blockId, End(rs[i]), lo, hi)
    ensures Follows(addr', End(rs[j - 1]), rs[j])
  {
    BelowMapped(addr, rs, i, addr', lo, hi, j);
    assert Follows(addr, End(rs[j - 1]), rs[j]);
    IdsIncrease(addr, rs, j, i);
  }

  lemma FollowsBehind(addr: seq<nat>, rs: seq<Region>, i: nat, addr': seq<nat>, lo: nat, hi: nat, j: nat)
    requires RegionsOk(addr, rs) && i < j < |rs| - 1 && Cuts(addr, addr', rs[i].blockId, End(rs[i]), lo, hi)
    ensures lo <= hi <= rs[j].blockId && hi <= rs[j + 1].blockId
    ensures Follows(addr', End(rs[j]) - (hi - lo), rs[j + 1].(blockId := rs[j + 1].blockId - (hi - lo)))
  {
    Behind(addr, rs, i, addr', lo, hi, j);
    Behind(addr, rs, i, addr', lo, hi, j + 1);
    assert Follows(addr, End(rs[j]), rs[j + 1]) && Mapped(addr, rs[j]);
    if rs[j + 1].blockId == End(rs[j]) + 1 { assert addr'[End(rs[j]) - (hi - lo)] == addr[End(rs[j])]; }
  }

  lemma TopStays(addr: seq<nat>, rs: seq<Region>, i: nat, addr': seq<nat>, lo: nat, hi: nat)
    requires RegionsOk(addr, rs) && i < |rs| - 1 && Cuts(addr, addr', rs[i].blockId, End(rs[i]), lo, hi)
    ensures |addr'| > 0 && addr'[|addr'| - 1] == 0
  {
    hide RegionsOk, Mapped, Follows, Disjoint;
    Behind(addr, rs, i, addr', lo, hi, |rs| - 1);
    FirstAndLast(addr, rs);
    LastIsLast(addr, rs);
    ReservesSome(addr, rs, |rs| - 1);
    assert addr'[|addr| - 1 - (hi - lo)] == addr[|addr| - 1];
  }

  /** The regions around the one that goes are now separated by one sentinel. */
  lemma Junction(addr: seq<nat>, rs: seq<Region>, i: nat, addr': seq<nat>, lo: nat, hi: nat)
    requires RegionsOk(addr, rs) && 0 < i < |rs| - 1 && Cuts(addr, addr', rs[i].blockId, End(rs[i]), lo, hi)
    ensures rs[i + 1].blockId - (hi - lo) == End(rs[i - 1]) + 1
  {
    IdsIncrease(addr, rs, i - 1, i);
    assert Follows(addr, End(rs[i - 1]), rs[i]) && Follows(addr, End(rs[i]), rs[i + 1]);
    assert Mapped(addr, rs[i - 1]) && Mapped(addr, rs[i]) && Mapped(addr, rs[i + 1]);
    assert addr[End(rs[i - 1]) - 1] > 0 && addr[rs[i + 1].blockId] > 0;
  }

  lemma FirstIsFirst(addr: seq<nat>, rs: seq<Region>, addr': seq<nat>, lo: nat, hi: nat)
    requires RegionsOk(addr, rs) && 1 < |rs| && Cuts(addr, addr', rs[0].blockId, End(rs[0]), lo, hi)
    ensures rs[1].blockId == hi - lo
  {
    assert Follows(addr, End(rs[0]), rs[1]) && Mapped(addr, rs[0]) && Mapped(addr, rs[1]);
    assert addr[rs[1].blockId] > 0;
  }
}
