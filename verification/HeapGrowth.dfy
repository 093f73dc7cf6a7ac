/** Growing the block array: new pages at its end, behind the top sentinel or in its place. */
module HeapGrowth {
  import opened HeapBlocks
  import opened FreeLists
  import opened HeapState

  /** The number of slots that stay: all of them, or all but the top sentinel. */
  function OldLength(s: State, contiguous: bool): nat
    requires contiguous ==> |s.b| > 0
  {
    if contiguous then |s.b| - 1 else |s.b|
  }

  function TopTag(b: seq<HeapBlock>, contiguous: bool): nat
    requires contiguous ==> |b| > 0
  {
    if contiguous then b[|b| - 1].sizePrevious else 0
  }

  function NewBlocks(b: seq<HeapBlock>, contiguous: bool, base: nat, size: nat, dirty: bool): seq<HeapBlock>
    requires size > 0 && (contiguous ==> |b| > 0)
  {
    b[..if contiguous then |b| - 1 else |b|]
    + [HeapBlock(base, size, TopTag(b, contiguous), false, true, dirty)]
    + seq(size - 1, i => CLEARED)
    + [CLEARED.(sizePrevious := size)]
  }

  ghost function Grown(s: State, contiguous: bool, base: nat, size: nat, dirty: bool): State
    requires size > 0 && (contiguous ==> |s.b| > 0)
    requires |s.o| == |s.addr| == |s.zero| == |s.b|
  {
    var n := OldLength(s, contiguous);
    State(NewBlocks(s.b, contiguous, base, size, dirty), s.l,
          s.o[..n] + seq(size, i => n) + [n + size],
          s.addr[..n] + seq(size, i => base + i) + [0],
          s.zero[..n] + seq(size, i => !dirty) + [false])
  }

  lemma GrownSlots(s: State, contiguous: bool, base: nat, size: nat, dirty: bool, j: nat)
    requires size > 0 && (contiguous ==> |s.b| > 0) && |s.o| == |s.addr| == |s.zero| == |s.b|
    ensures var n := OldLength(s, contiguous); var s' := Grown(s, contiguous, base, size, dirty);
      && |s'.b| == |s'.o| == |s'.addr| == |s'.zero| == n + size + 1 && s'.l == s.l
      && (j < n ==> s'.b[j] == s.b[j] && s'.o[j] == s.o[j] && s'.addr[j] == s.addr[j] && s'.zero[j] == s.zero[j])
      && (n <= j < n + size ==> s'.o[j] == n && s'.addr[j] == base + (j - n) && s'.zero[j] == !dirty)
      && (j == n ==> s'.b[j] == HeapBlock(base, size, TopTag(s.b, contiguous), false, true, dirty))
      && (n < j < n + size ==> s'.b[j] == CLEARED)
      && (j == n + size ==> s'.b[j] == CLEARED.(sizePrevious := size) && s'.o[j] == j && s'.addr[j] == 0)
  {
  }

  lemma TopSentinel(b: seq<HeapBlock>, o: seq<nat>)
    requires Tiles(b, o) && |b| > 0
    ensures o[|b| - 1] == |b| - 1 && b[|b| - 1].size == 0 && !b[|b| - 1].linked
    ensures forall k :: 0 <= k < |b| && o[k] == k && b[k].size > 0 ==> k + b[k].size <= |b| - 1
  {
    var h := o[|b| - 1];
    assert o[h] == h;
  }

  /** What the old slots are after growing. */
  ghost predicate Extends(s: State, s': State, n: nat, size: nat) {
    && |s'.b| == |s'.o| == |s'.addr| == |s'.zero| == n + size + 1 && s'.l == s.l
    && n <= |s.b| == |s.o| == |s.addr| == |s.zero|
    && (forall j :: 0 <= j < n ==>
        s'.b[j] == s.b[j] && s'.o[j] == s.o[j] && s'.addr[j] == s.addr[j] && s'.zero[j] == s.zero[j])
    && (forall j :: n <= j < n + size ==> s'.o[j] == n)
    && (forall j :: n < j < n + size ==> s'.b[j] == CLEARED)
    && s'.b[n].size == size && !s'.b[n].linked
    && s'.b[n + size] == CLEARED.(sizePrevious := size) && s'.o[n + size] == n + size && s'.addr[n + size] == 0
  }

  lemma GrownTiling(z: seq<nat>, o: seq<nat>, z': seq<nat>, o': seq<nat>, n: nat, size: nat)
    requires Tiling(z, o) && size > 0 && n <= |z| && |z'| == |o'| == n + size + 1
    requires forall k :: 0 <= k < n && o[k] == k ==> k + z[k] <= n
    requires forall j :: 0 <= j < n ==> z'[j] == z[j] && o'[j] == o[j]
    requires forall j :: n <= j < n + size ==> o'[j] == n
    requires z'[n] == size && z'[n + size] == 0 && o'[n + size] == n + size
    ensures Tiling(z', o')
  {
    forall j | 0 <= j < |o'| ensures o'[j] <= j && o'[o'[j]] == o'[j] && (o'[j] == j || j < o'[j] + z'[o'[j]]) {
      if j < n { assert o[o[j]] == o[j]; }
    }
  }

  lemma GrownTiles(s: State, s': State, n: nat, size: nat)
    requires Tiles(s.b, s.o) && size > 0 && Extends(s, s', n, size)
    requires forall k :: 0 <= k < n && s.o[k] == k ==> k + s.b[k].size <= n
    ensures Tiles(s'.b, s'.o)
  {
    hide Tiling;
    GrownTiling(Sizes(s.b), s.o, Sizes(s'.b), s'.o, n, size);
  }

  lemma GrownTags(s: State, s': State, n: nat, size: nat)
    requires Tiles(s.b, s.o) && Tags(s.b, s.o, |s.b|) && size > 0 && Extends(s, s', n, size) && Tiles(s'.b, s'.o)
    requires TagAt(s'.b, s'.o, n)
    ensures Tags(s'.b, s'.o, |s'.b|)
  {
    hide Tiling;
    forall k | 0 <= k < |s'.o| && s'.o[k] == k ensures TagAt(s'.b, s'.o, k) {
      if k < n {
        OwnerBelow(s.b, s.o, k);
        assert TagAt(s.b, s.o, k);
      }
    }
  }

  lemma OwnerBelow(b: seq<HeapBlock>, o: seq<nat>, k: nat)
    requires Tiles(b, o) && k < |o|
    ensures k > 0 ==> o[k - 1] < k
  {
  }

  lemma GrownPages(s: State, s': State, n: nat, size: nat)
    requires Tiles(s.b, s.o) && size > 0 && Extends(s, s', n, size)
    ensures |P(s')| == n + size + 1 && |P(s)| == |s.b|
    ensures forall j :: 0 <= j < n ==> P(s')[j] == P(s)[j]
    ensures forall j :: n <= j < n + size ==> P(s')[j] == Used(n)
    ensures P(s')[n + size] == Sentinel
  {
    hide Tiling;
    forall j | 0 <= j < n ensures P(s')[j] == P(s)[j] { OwnerAt(s.b, s.o, j); }
  }

  lemma OwnerAt(b: seq<HeapBlock>, o: seq<nat>, j: nat)
    requires Tiles(b, o) && j < |o|
    ensures o[j] <= j
  {
  }

  lemma GrownLists(s: State, s': State, n: nat, size: nat)
    requires Listed(s.b, s.l) && s'.l == s.l && Extends(s, s', n, size)
    requires (forall j :: n <= j < |s.b| ==> !s.b[j].linked)
    ensures Listed(s'.b, s'.l)
  {
    hide Complete, Distinct, RightList, Ordered;
    forall i, p | 0 <= i < |s.l| && 0 <= p < |s.l[i]| ensures s.l[i][p] < n && s'.b[s.l[i][p]] == s.b[s.l[i][p]] {
      LinkedIfRight(s.b[s.l[i][p]], i);
    }
    GrownComplete(s, s', n, size);
    forall i | 0 <= i < |s.l| ensures Ordered(s'.b, s.l[i]) {
      SameOrder(s.b, s'.b, s.l[i]);
    }
  }

  lemma GrownComplete(s: State, s': State, n: nat, size: nat)
    requires Complete(s.b, s.l) && s'.l == s.l && Extends(s, s', n, size)
    ensures Complete(s'.b, s'.l)
  {
  }

  lemma SameOrder(b: seq<HeapBlock>, b': seq<HeapBlock>, l: seq<nat>)
    requires Ordered(b, l) && forall q :: 0 <= q < |l| ==> l[q] < |b| && l[q] < |b'| && b'[l[q]] == b[l[q]]
    ensures Ordered(b', l)
  {
  }

  lemma GrownClean(s: State, s': State, n: nat, size: nat)
    requires Tiles(s.b, s.o) && Clean(s.b, s.zero) && Extends(s, s', n, size)
    requires forall k :: 0 <= k < n && s.o[k] == k ==> k + s.b[k].size <= n
    ensures Clean(s'.b, s'.zero)
  {
    hide Tiling;
    forall k | 0 <= k < |s'.b| && s'.b[k].linked ensures CleanAt(s'.b, s'.zero, k) {
      assert CleanAt(s.b, s.zero, k);
      assert s.o[k] == k;
    }
  }

  /** The new pages, as a block of their own, behind all the others. They adjoin the last block if they take the
      place of the top sentinel. */
  lemma GrownOk(s: State, contiguous: bool, base: nat, size: nat, dirty: bool)
    requires Ok(s, |s.b|) && size > 0 && base > 0
    requires contiguous ==> |s.b| > 1 && base == s.addr[|s.b| - 2] + 1
    ensures |s.o| == |s.addr| == |s.zero| == |s.b|
    ensures var n := OldLength(s, contiguous); var s' := Grown(s, contiguous, base, size, dirty);
      && Ok(s', |s'.b|) && Taken(s', n) && s'.b[n] == HeapBlock(base, size, TopTag(s.b, contiguous), false, true, dirty)
      && CleanAt(s'.b, s'.zero, n) && Extends(s, s', n, size)
  {
    hide Tiles, Tags, Listed, Clean, Coalesced, Based, Grown, Taken, CleanAt, OldLength, TopTag, TagAt, Pages;
    Lengths(s);
    var n, s' := OldLength(s, contiguous), Grown(s, contiguous, base, size, dirty);
    GrownExtends(s, contiguous, base, size, dirty);
    OldBlocksEnd(s, contiguous);
    GrownTiles(s, s', n, size);
    TopTagRight(s, contiguous, base, size, dirty);
    GrownTags(s, s', n, size);
    GrownLists(s, s', n, size);
    GrownClean(s, s', n, size);
    GrownPages(s, s', n, size);
    GrownCoalesced(s.o, P(s), s'.o, P(s'), n, size);
    GrownAddresses(s, contiguous, base, size, dirty);
    GrownTaken(s, contiguous, base, size, dirty);
  }

  lemma GrownExtends(s: State, contiguous: bool, base: nat, size: nat, dirty: bool)
    requires size > 0 && (contiguous ==> |s.b| > 0) && |s.o| == |s.addr| == |s.zero| == |s.b|
    ensures Extends(s, Grown(s, contiguous, base, size, dirty), OldLength(s, contiguous), size)
  {
    hide Grown;
    var n, s' := OldLength(s, contiguous), Grown(s, contiguous, base, size, dirty);
    GrownSlots(s, contiguous, base, size, dirty, 0);
    forall j: nat ensures
      && (j < n ==> s'.b[j] == s.b[j] && s'.o[j] == s.o[j] && s'.addr[j] == s.addr[j] && s'.zero[j] == s.zero[j])
      && (n <= j < n + size ==> s'.o[j] == n) && (n < j < n + size ==> s'.b[j] == CLEARED)
    {
      GrownSlots(s, contiguous, base, size, dirty, j);
    }
    GrownSlots(s, contiguous, base, size, dirty, n);
    GrownSlots(s, contiguous, base, size, dirty, n + size);
  }

  lemma OldBlocksEnd(s: State, contiguous: bool)
    requires Ok(s, |s.b|) && (contiguous ==> |s.b| > 0)
    ensures var n := OldLength(s, contiguous);
      && |s.o| == |s.b| && (forall k :: 0 <= k < n && s.o[k] == k ==> k + s.b[k].size <= n)
      && (forall j :: n <= j < |s.b| ==> !s.b[j].linked)
  {
    if |s.b| > 0 { TopSentinel(s.b, s.o); }
  }

  lemma TopTagRight(s: State, contiguous: bool, base: nat, size: nat, dirty: bool)
    requires Ok(s, |s.b|) && size > 0 && (contiguous ==> |s.b| > 1)
    requires |s.o| == |s.addr| == |s.zero| == |s.b|
    ensures var n := OldLength(s, contiguous); var s' := Grown(s, contiguous, base, size, dirty);
      |s'.b| == |s'.o| > n && TagAt(s'.b, s'.o, n)
  {
    hide Tiling, Cleared, Grown;
    var n := OldLength(s, contiguous);
    GrownSlots(s, contiguous, base, size, dirty, n);
    if |s.b| > 0 {
      TopSentinel(s.b, s.o);
      assert TagAt(s.b, s.o, |s.b| - 1);
    }
    if n > 0 {
      OwnerAt(s.b, s.o, n - 1);
      GrownSlots(s, contiguous, base, size, dirty, n - 1);
      GrownSlots(s, contiguous, base, size, dirty, s.o[n - 1]);
    }
  }

  lemma GrownCoalesced(o: seq<nat>, p: seq<Page>, o': seq<nat>, p': seq<Page>, n: nat, size: nat)
    requires Coalesced(o, p) && n <= |o| && |o'| == |p'| == n + size + 1
    requires forall j :: 0 <= j < n ==> o'[j] == o[j] && p'[j] == p[j]
    requires forall j :: n <= j <= n + size ==> !p'[j].Free?
    ensures Coalesced(o', p')
  {
  }

  lemma GrownAddresses(s: State, contiguous: bool, base: nat, size: nat, dirty: bool)
    requires Ok(s, |s.b|) && size > 0 && base > 0 && |s.o| == |s.addr| == |s.zero| == |s.b|
    requires contiguous ==> |s.b| > 1 && base == s.addr[|s.b| - 2] + 1
    ensures var s' := Grown(s, contiguous, base, size, dirty);
      Based(s'.b, s'.o, s'.addr)
      && forall j :: 0 < j < |s'.addr| && s'.addr[j - 1] > 0 && s'.addr[j] > 0 ==> s'.addr[j] == s'.addr[j - 1] + 1
  {
    hide Tiling, Cleared, Tags, Listed, Clean, Coalesced, Grown, Addressed, Based;
    var n, s' := OldLength(s, contiguous), Grown(s, contiguous, base, size, dirty);
    GrownBased(s, contiguous, base, size, dirty);
    if |s.b| > 0 { TopIsSentinel(s); }
    forall j | 0 < j < |s'.addr| && s'.addr[j - 1] > 0 && s'.addr[j] > 0 ensures s'.addr[j] == s'.addr[j - 1] + 1 {
      GrownSlots(s, contiguous, base, size, dirty, j);
      GrownSlots(s, contiguous, base, size, dirty, j - 1);
      if j < n { Adjacent(s, j); }
    }
  }

  lemma GrownBased(s: State, contiguous: bool, base: nat, size: nat, dirty: bool)
    requires Based(s.b, s.o, s.addr) && size > 0 && |s.o| == |s.addr| == |s.zero| == |s.b| && (contiguous ==> |s.b| > 1)
    ensures var s' := Grown(s, contiguous, base, size, dirty); Based(s'.b, s'.o, s'.addr) && |s'.addr| == |s'.b|
  {
    hide Grown;
    var s' := Grown(s, contiguous, base, size, dirty);
    GrownSlots(s, contiguous, base, size, dirty, 0);
    forall k | 0 <= k < |s'.o| && s'.o[k] == k ensures s'.b[k].baseAddr == s'.addr[k] {
      GrownSlots(s, contiguous, base, size, dirty, k);
    }
  }

  lemma Adjacent(s: State, j: nat)
    requires Ok(s, |s.b|) && 0 < j < |s.addr| && s.addr[j - 1] > 0 && s.addr[j] > 0
    ensures s.addr[j] == s.addr[j - 1] + 1
  {
  }

  lemma TopIsSentinel(s: State)
    requires Ok(s, |s.b|) && |s.b| > 0
    ensures |s.addr| == |s.b| && s.addr[|s.b| - 1] == 0
  {
    hide Tiling, Cleared, Listed, Clean, Coalesced;
    TopSentinel(s.b, s.o);
  }

  lemma GrownTaken(s: State, contiguous: bool, base: nat, size: nat, dirty: bool)
    requires Ok(s, |s.b|) && size > 0 && base > 0 && |s.o| == |s.addr| == |s.zero| == |s.b| == |P(s)|
    requires contiguous ==> |s.b| > 1
    requires var s' := Grown(s, contiguous, base, size, dirty); var n := OldLength(s, contiguous);
      && Extends(s, s', n, size) && |P(s')| == n + size + 1
      && (forall j :: 0 <= j < n ==> P(s')[j] == P(s)[j])
      && (forall j :: n <= j < n + size ==> P(s')[j] == Used(n)) && P(s')[n + size] == Sentinel
    ensures var n := OldLength(s, contiguous); var s' := Grown(s, contiguous, base, size, dirty);
      && Taken(s', n) && s'.b[n] == HeapBlock(base, size, TopTag(s.b, contiguous), false, true, dirty)
      && CleanAt(s'.b, s'.zero, n)
      && (forall j :: 0 <= j < |s'.addr| ==> (s'.addr[j] == 0 <==> P(s')[j] == Sentinel))
  {
    hide Tiling, Cleared, Tags, Listed, Clean, Coalesced, Grown, Pages;
    var n, s' := OldLength(s, contiguous), Grown(s, contiguous, base, size, dirty);
    GrownSlots(s, contiguous, base, size, dirty, n);
    forall j | 0 <= j < |s'.addr|
      ensures (s'.addr[j] == 0 <==> P(s')[j] == Sentinel) && (n <= j < n + size ==> s'.zero[j] == !dirty)
    {
      GrownSlots(s, contiguous, base, size, dirty, j);
    }
  }
}
