/** The block array of MMgc/GCHeap.h as a value. A block of size s at slot k covers the slots k .. k+s-1, of which
    all but the first have size zero; a sentinel is a slot of its own, of size zero. The owner of a slot is the slot
    at which its block starts. */
module HeapBlocks {

  /** Addresses are counted in pages (BLOCK_SIZE bytes); address zero stands for NULL. A block is linked if it is in
      a free list, that is, if its prev pointer is not NULL. */
  datatype HeapBlock =
    HeapBlock(baseAddr: nat, size: nat, sizePrevious: nat, linked: bool, committed: bool, dirty: bool)

  const CLEARED := HeapBlock(0, 0, 0, false, false, false)

  /** What a slot of the array is good for. */
  datatype Page = Sentinel | Used(start: nat) | Free(committed: bool)

  ghost function PageOf(b: seq<HeapBlock>, o: seq<nat>, j: nat): Page
    requires j < |o|
  {
    var k := o[j];
    if k >= |b| || b[k].size == 0 then Sentinel
    else if b[k].linked then Free(b[k].committed)
    else Used(k)
  }

  ghost function Pages(b: seq<HeapBlock>, o: seq<nat>): (p: seq<Page>)
    ensures |p| == |o| && forall j :: 0 <= j < |o| ==> p[j] == PageOf(b, o, j)
  {
    seq(|o|, j requires 0 <= j < |o| => PageOf(b, o, j))
  }

  ghost function Paint(p: seq<Page>, from: nat, to: nat, c: Page): (q: seq<Page>)
    ensures |q| == |p| && forall j :: 0 <= j < |p| ==> q[j] == if from <= j < to then c else p[j]
  {
    seq(|p|, j requires 0 <= j < |p| => if from <= j < to then c else p[j])
  }

  // ----- The invariants of the array

  /** Blocks of sizes z, and sentinels, tile the array exactly. */
  ghost predicate Tiling(z: seq<nat>, o: seq<nat>) {
    && |z| == |o|
    && (forall j :: 0 <= j < |o| ==> o[j] <= j && o[o[j]] == o[j])
    && (forall j :: 0 <= j < |o| ==> o[j] == j || j < o[j] + z[o[j]])
    && (forall k :: 0 <= k < |o| && o[k] == k ==> k + z[k] < |o|)
    && (forall k, j :: 0 <= k < |o| && o[k] == k && k <= j < k + z[k] ==> o[j] == k)
  }

  ghost function Sizes(b: seq<HeapBlock>): (z: seq<nat>)
    ensures |z| == |b| && forall j :: 0 <= j < |b| ==> z[j] == b[j].size
  {
    seq(|b|, j requires 0 <= j < |b| => b[j].size)
  }

  /** Slots inside a block are cleared, and free blocks have some size. */
  ghost predicate Cleared(b: seq<HeapBlock>, o: seq<nat>)
    requires |b| == |o|
  {
    forall j :: 0 <= j < |o| ==>
      && (o[j] != j ==> b[j].size == 0 && b[j].sizePrevious == 0 && b[j].baseAddr == 0)
      && (b[j].linked ==> b[j].size > 0)
  }

  ghost predicate Tiles(b: seq<HeapBlock>, o: seq<nat>) {
    |b| == |o| && Tiling(Sizes(b), o) && Cleared(b, o)
  }

  /** The boundary tag at k is the size of what comes before, zero for a sentinel. */
  ghost predicate TagAt(b: seq<HeapBlock>, o: seq<nat>, k: nat)
    requires k < |b| == |o|
  {
    b[k].sizePrevious == if k == 0 || o[k - 1] >= |b| then 0 else b[o[k - 1]].size
  }

  /** All boundary tags are right, but perhaps for the one at 'loose'. */
  ghost predicate Tags(b: seq<HeapBlock>, o: seq<nat>, loose: nat)
    requires Tiles(b, o)
  {
    forall k {:trigger TagAt(b, o, k)} :: 0 <= k < |o| && o[k] == k && k != loose ==> TagAt(b, o, k)
  }

  /** Adjacent free blocks differ in whether they are committed. */
  ghost predicate Coalesced(o: seq<nat>, p: seq<Page>) {
    && |p| == |o|
    && forall k :: 0 < k < |o| && o[k] == k && p[k].Free? ==> p[k - 1] != p[k]
  }

  /** Each block lies at the address of its first slot. */
  ghost predicate Based(b: seq<HeapBlock>, o: seq<nat>, addr: seq<nat>) {
    && |addr| == |o| == |b|
    && forall k :: 0 <= k < |o| && o[k] == k ==> b[k].baseAddr == addr[k]
  }

  /** Just the sentinels have no address, and adjacent slots with addresses are adjacent in memory. */
  ghost predicate Addressed(addr: seq<nat>, p: seq<Page>) {
    && |addr| == |p|
    && (forall j :: 0 <= j < |addr| ==> (addr[j] == 0 <==> p[j] == Sentinel))
    && (forall j :: 0 < j < |addr| && addr[j - 1] > 0 && addr[j] > 0 ==> addr[j] == addr[j - 1] + 1)
  }

  ghost predicate ZeroOn(zero: seq<bool>, from: nat, to: nat) {
    to <= |zero| && forall j :: from <= j < to ==> zero[j]
  }

  /** A block that is not marked dirty, or not committed, has nothing but zeroes, if not now then when it is
      committed. */
  ghost predicate CleanAt(b: seq<HeapBlock>, zero: seq<bool>, k: nat)
    requires k < |b|
  {
    !b[k].committed || !b[k].dirty ==> ZeroOn(zero, k, k + b[k].size)
  }

  ghost predicate Clean(b: seq<HeapBlock>, zero: seq<bool>) {
    forall k :: 0 <= k < |b| && b[k].linked ==> CleanAt(b, zero, k)
  }

  // ----- Neighbours

  lemma NextHead(b: seq<HeapBlock>, o: seq<nat>, k: nat)
    requires Tiles(b, o) && k < |o| && o[k] == k && b[k].size > 0
    ensures k + b[k].size < |o| && o[k + b[k].size] == k + b[k].size && o[k + b[k].size - 1] == k
  {
    var n := k + b[k].size;
    var h := o[n];
    assert h <= n;
  }

  lemma PrevHead(b: seq<HeapBlock>, o: seq<nat>, k: nat)
    requires Tiles(b, o) && 0 < k < |o| && o[k] == k
    ensures o[k - 1] < k && o[o[k - 1]] == o[k - 1]
    ensures b[o[k - 1]].size > 0 ==> o[k - 1] + b[o[k - 1]].size == k
    ensures b[o[k - 1]].size == 0 ==> o[k - 1] == k - 1
  {
  }

  lemma InBlock(b: seq<HeapBlock>, o: seq<nat>, k: nat, j: nat)
    requires Tiles(b, o) && k < |o| && o[k] == k && k <= j < k + b[k].size
    ensures j < |o| && o[j] == k
  {
  }

  /** The pages of a block. */
  lemma PagesOfBlock(b: seq<HeapBlock>, o: seq<nat>, k: nat)
    requires Tiles(b, o) && k < |o| && o[k] == k && b[k].size > 0
    ensures forall j :: k <= j < k + b[k].size ==> j < |o| && Pages(b, o)[j] == PageOf(b, o, k)
    ensures PageOf(b, o, k) == if b[k].linked then Free(b[k].committed) else Used(k)
  {
  }

  lemma {:induction false} AddressInBlock(b: seq<HeapBlock>, o: seq<nat>, addr: seq<nat>, k: nat, j: nat)
    requires Tiles(b, o) && Based(b, o, addr) && Addressed(addr, Pages(b, o))
    requires k < |o| && o[k] == k && k <= j < k + b[k].size
    ensures j < |o| && addr[j] == b[k].baseAddr + (j - k)
  {
    PagesOfBlock(b, o, k);
    if j > k { AddressInBlock(b, o, addr, k, j - 1); }
  }

  // ----- Changes of the flags of blocks

  ghost predicate SameShape(b: seq<HeapBlock>, b': seq<HeapBlock>) {
    && |b| == |b'|
    && forall j :: 0 <= j < |b| ==>
         && b'[j].size == b[j].size && b'[j].sizePrevious == b[j].sizePrevious && b'[j].baseAddr == b[j].baseAddr
         && (b'[j].linked ==> b'[j].size > 0)
  }

  lemma ShapeKept(b: seq<HeapBlock>, b': seq<HeapBlock>, o: seq<nat>, loose: nat)
    requires Tiles(b, o) && Tags(b, o, loose) && SameShape(b, b')
    ensures Tiles(b', o) && Tags(b', o, loose)
  {
    forall k | 0 <= k < |o| && o[k] == k && k != loose ensures TagAt(b', o, k) { assert TagAt(b, o, k); }
  }

  /** Changing the flags of one block repaints its pages. */
  lemma Repainted(b: seq<HeapBlock>, b': seq<HeapBlock>, o: seq<nat>, k: nat)
    requires Tiles(b, o) && SameShape(b, b') && k < |b| && b[k].size > 0
    requires b' == b[k := b'[k]]
    ensures o[k] == k
    ensures Pages(b', o) ==
              Paint(Pages(b, o), k, k + b[k].size, if b'[k].linked then Free(b'[k].committed) else Used(k))
  {
  }

  lemma AddressedStill(addr: seq<nat>, p: seq<Page>, from: nat, to: nat, c: Page)
    requires Addressed(addr, p) && c != Sentinel
    requires forall j :: from <= j < to && j < |p| ==> p[j] != Sentinel
    ensures Addressed(addr, Paint(p, from, to, c))
  {
  }

  /** Pages taken out of use of the free lists need no coalescing. */
  lemma CoalescedStill(o: seq<nat>, p: seq<Page>, from: nat, to: nat, start: nat)
    requires Coalesced(o, p)
    ensures Coalesced(o, Paint(p, from, to, Used(start)))
  {
  }

  /** A block may be freed if no neighbour is free and alike. */
  lemma CoalescedFree(b: seq<HeapBlock>, o: seq<nat>, k: nat, c: bool)
    requires Tiles(b, o) && Coalesced(o, Pages(b, o)) && k < |b| && o[k] == k && b[k].size > 0
    requires k > 0 ==> PageOf(b, o, k - 1) != Free(c)
    requires k + b[k].size < |b| ==> PageOf(b, o, k + b[k].size) != Free(c)
    ensures Coalesced(o, Paint(Pages(b, o), k, k + b[k].size, Free(c)))
  {
  }

  // ----- Split and merge

  ghost function SplitOwner(o: seq<nat>, k: nat, s: nat): (o': seq<nat>)
    ensures |o'| == |o| && forall j :: 0 <= j < |o| ==> o'[j] == if o[j] == k && k + s <= j then k + s else o[j]
  {
    seq(|o|, j requires 0 <= j < |o| => if o[j] == k && k + s <= j then k + s else o[j])
  }

  function SplitBlocks(b: seq<HeapBlock>, k: nat, s: nat): seq<HeapBlock>
    requires k < |b| && s < b[k].size && k + b[k].size < |b|
  {
    var rest := HeapBlock(b[k].baseAddr + s, b[k].size - s, s, false, b[k].committed, b[k].dirty);
    b[k + b[k].size := b[k + b[k].size].(sizePrevious := b[k].size - s)][k + s := rest][k := b[k].(size := s)]
  }

  lemma SplitTiling(z: seq<nat>, o: seq<nat>, z': seq<nat>, o': seq<nat>, k: nat, s: nat)
    requires Tiling(z, o) && k < |z| && o[k] == k && 0 < s < z[k] && |z'| == |z| && |o'| == |o|
    requires z'[k] == s && z'[k + s] == z[k] - s && forall j :: 0 <= j < |z| && j != k && j != k + s ==> z'[j] == z[j]
    requires forall j :: 0 <= j < |o| ==> o'[j] == if o[j] == k && k + s <= j then k + s else o[j]
    ensures Tiling(z', o')
  {
    forall j | 0 <= j < |o| ensures o'[j] <= j && o'[o'[j]] == o'[j] && (o'[j] == j || j < o'[j] + z'[o'[j]]) {
      assert o[o[j]] == o[j];
    }
    forall i | 0 <= i < |o| && o'[i] == i ensures i + z'[i] < |o| {
      assert i != k + s ==> o[i] == i;
    }
    forall i, j | 0 <= i < |o| && o'[i] == i && i <= j < i + z'[i] ensures o'[j] == i {
      if i == k + s {
        assert o[j] == k;
      } else {
        assert o[i] == i && o[j] == i;
      }
    }
  }

  lemma SplitTiles(b: seq<HeapBlock>, o: seq<nat>, k: nat, s: nat)
    requires Tiles(b, o) && k < |b| && o[k] == k && 0 < s < b[k].size && !b[k].linked
    ensures k + b[k].size < |b| && Tiles(SplitBlocks(b, k, s), SplitOwner(o, k, s))
  {
    hide Tiling;
    NextHead(b, o, k);
    var b', o' := SplitBlocks(b, k, s), SplitOwner(o, k, s);
    SplitTiling(Sizes(b), o, Sizes(b'), o', k, s);
  }

  lemma SplitTags(b: seq<HeapBlock>, o: seq<nat>, k: nat, s: nat, loose: nat)
    requires Tiles(b, o) && k < |b| && o[k] == k && 0 < s < b[k].size && !b[k].linked && Tags(b, o, loose)
    requires k + b[k].size < |b| && Tiles(SplitBlocks(b, k, s), SplitOwner(o, k, s))
    ensures Tags(SplitBlocks(b, k, s), SplitOwner(o, k, s), loose)
  {
    var b', o' := SplitBlocks(b, k, s), SplitOwner(o, k, s);
    forall i | 0 <= i < |o| && o'[i] == i && i != loose ensures TagAt(b', o', i) {
      SplitTag(b, o, k, s, loose, i);
    }
  }

  /** What comes before a block after a split. */
  lemma SplitBefore(b: seq<HeapBlock>, o: seq<nat>, k: nat, s: nat, i: nat)
    requires Tiles(b, o) && k < |b| && o[k] == k && 0 < s < b[k].size && 0 < i < |o| && SplitOwner(o, k, s)[i] == i
    ensures i == k + s ==> SplitOwner(o, k, s)[i - 1] == k
    ensures i == k + b[k].size ==> SplitOwner(o, k, s)[i - 1] == k + s
    ensures i != k + s && i != k + b[k].size ==>
              o[i] == i && SplitOwner(o, k, s)[i - 1] == o[i - 1] && o[i - 1] != k && o[i - 1] != k + s
  {
    hide Tiling;
    InBlock(b, o, k, k + s);
    if i == k + s {
      InBlock(b, o, k, i - 1);
    } else if i == k + b[k].size {
      InBlock(b, o, k, i - 1);
    } else {
      PrevHead(b, o, i);
    }
  }

  lemma SplitTag(b: seq<HeapBlock>, o: seq<nat>, k: nat, s: nat, loose: nat, i: nat)
    requires Tiles(b, o) && k < |b| && o[k] == k && 0 < s < b[k].size && !b[k].linked && Tags(b, o, loose)
    requires k + b[k].size < |b| && i < |b| && SplitOwner(o, k, s)[i] == i && i != loose
    ensures TagAt(SplitBlocks(b, k, s), SplitOwner(o, k, s), i)
  {
    hide Tiling, SplitOwner, Cleared;
    if i > 0 { SplitBefore(b, o, k, s, i); }
    if i != k + s && i != k + b[k].size { assert TagAt(b, o, i); }
  }

  lemma SplitPages(b: seq<HeapBlock>, o: seq<nat>, k: nat, s: nat)
    requires Tiles(b, o) && k < |b| && o[k] == k && 0 < s < b[k].size && !b[k].linked && k + b[k].size < |b|
    ensures Pages(SplitBlocks(b, k, s), SplitOwner(o, k, s)) == Paint(Pages(b, o), k + s, k + b[k].size, Used(k + s))
  {
  }

  ghost function MergeOwner(o: seq<nat>, k: nat, n: nat): (o': seq<nat>)
    ensures |o'| == |o| && forall j :: 0 <= j < |o| ==> o'[j] == if o[j] == n then k else o[j]
  {
    seq(|o|, j requires 0 <= j < |o| => if o[j] == n then k else o[j])
  }

  /** The block at k takes over its successor at n. */
  function MergeBlocks(b: seq<HeapBlock>, k: nat, n: nat): seq<HeapBlock>
    requires k < |b| && n < |b|
  {
    b[k := b[k].(size := b[k].size + b[n].size)][n := b[n].(size := 0, baseAddr := 0, sizePrevious := 0)]
  }

  lemma MergeTiling(z: seq<nat>, o: seq<nat>, z': seq<nat>, o': seq<nat>, k: nat, n: nat)
    requires Tiling(z, o) && k < n < |z| && o[k] == k && o[n] == n && n == k + z[k] && 0 < z[n]
    requires |z'| == |z| && |o'| == |o|
    requires z'[k] == z[k] + z[n] && z'[n] == 0 && forall j :: 0 <= j < |z| && j != k && j != n ==> z'[j] == z[j]
    requires forall j :: 0 <= j < |o| ==> o'[j] == if o[j] == n then k else o[j]
    ensures Tiling(z', o')
  {
    forall j | 0 <= j < |o| ensures o'[j] <= j && o'[o'[j]] == o'[j] && (o'[j] == j || j < o'[j] + z'[o'[j]]) {
      assert o[o[j]] == o[j];
    }
    forall i | 0 <= i < |o| && o'[i] == i ensures i + z'[i] < |o| {
      assert o[i] == i;
    }
    forall i, j | 0 <= i < |o| && o'[i] == i && i <= j < i + z'[i] ensures o'[j] == i {
      assert o[i] == i;
      if i == k && n <= j { assert o[j] == n; } else { assert o[j] == i; }
    }
  }

  lemma MergeTiles(b: seq<HeapBlock>, o: seq<nat>, k: nat, n: nat)
    requires Tiles(b, o) && k < n < |b| && o[k] == k && n == k + b[k].size && b[n].size > 0
    requires !b[k].linked && !b[n].linked
    ensures o[n] == n && Tiles(MergeBlocks(b, k, n), MergeOwner(o, k, n))
  {
    hide Tiling;
    NextHead(b, o, k);
    var b', o' := MergeBlocks(b, k, n), MergeOwner(o, k, n);
    MergeTiling(Sizes(b), o, Sizes(b'), o', k, n);
  }

  lemma MergeTags(b: seq<HeapBlock>, o: seq<nat>, k: nat, n: nat, loose: nat)
    requires Tiles(b, o) && k < n < |b| && o[k] == k && n == k + b[k].size && b[n].size > 0
    requires o[n] == n && Tiles(MergeBlocks(b, k, n), MergeOwner(o, k, n))
    requires Tags(b, o, loose) && (loose == n || loose >= |b|)
    ensures Tags(MergeBlocks(b, k, n), MergeOwner(o, k, n), n + b[n].size)
  {
    NextHead(b, o, n);
    var b', o' := MergeBlocks(b, k, n), MergeOwner(o, k, n);
    forall i | 0 <= i < |o| && o'[i] == i && i != n + b[n].size ensures TagAt(b', o', i) {
      assert o[i] == i;
      assert TagAt(b, o, i);
      if i > 0 { PrevHead(b, o, i); }
    }
  }

  lemma MergePages(b: seq<HeapBlock>, o: seq<nat>, k: nat, n: nat)
    requires Tiles(b, o) && k < n < |b| && o[k] == k && n == k + b[k].size && b[n].size > 0 && o[n] == n
    requires !b[k].linked && !b[n].linked
    ensures Pages(MergeBlocks(b, k, n), MergeOwner(o, k, n)) == Paint(Pages(b, o), n, n + b[n].size, Used(k))
  {
  }

  /** The tag behind the block at k is put right. */
  function FixTag(b: seq<HeapBlock>, k: nat): seq<HeapBlock>
    requires k < |b| && k + b[k].size < |b|
  {
    b[k + b[k].size := b[k + b[k].size].(sizePrevious := b[k].size)]
  }

  lemma TagFixed(b: seq<HeapBlock>, o: seq<nat>, k: nat, loose: nat)
    requires Tiles(b, o) && k < |b| && o[k] == k && b[k].size > 0 && Tags(b, o, loose)
    ensures k + b[k].size < |b| && Tiles(FixTag(b, k), o) && Pages(FixTag(b, k), o) == Pages(b, o)
    ensures Tags(FixTag(b, k), o, if loose == k + b[k].size then |b| else loose)
  {
    hide Tiling, TagAt;
    NextHead(b, o, k);
    var b' := FixTag(b, k);
    assert Sizes(b') == Sizes(b);
    forall i | 0 <= i < |o| && o[i] == i && (i != loose || i == k + b[k].size) ensures TagAt(b', o, i) {
      FixedTag(b, o, k, loose, i);
    }
  }

  lemma FixedTag(b: seq<HeapBlock>, o: seq<nat>, k: nat, loose: nat, i: nat)
    requires Tiles(b, o) && k < |b| && o[k] == k && b[k].size > 0 && Tags(b, o, loose)
    requires i < |b| && o[i] == i && (i != loose || i == k + b[k].size)
    ensures k + b[k].size < |b| && TagAt(FixTag(b, k), o, i)
  {
    NextHead(b, o, k);
    if i != loose { assert TagAt(b, o, i); }
  }
}
