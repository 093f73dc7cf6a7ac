/** The segregated free lists of MMgc/GCHeap.h: which list a block belongs to, and in which order a list is kept. */
module FreeLists {
  import opened HeapBlocks

  const UNIQUE_THRESHOLD: nat := 16
  const HUGE_THRESHOLD: nat := 128
  const FREE_LIST_COMPRESSION: nat := 8
  const NUM_FREE_LISTS: nat := (HUGE_THRESHOLD - UNIQUE_THRESHOLD) / FREE_LIST_COMPRESSION + UNIQUE_THRESHOLD

  function GetFreeListIndex(size: nat): (i: nat)
    requires size > 0
  {
    if size <= UNIQUE_THRESHOLD then size - 1
    else if size >= HUGE_THRESHOLD then NUM_FREE_LISTS - 1
    else (size - UNIQUE_THRESHOLD) / FREE_LIST_COMPRESSION + UNIQUE_THRESHOLD - 1
  }

  /** Larger blocks are in later lists, so that a search may start at the list of the size it wants. */
  lemma IndexMonotone(a: nat, b: nat)
    requires 0 < a <= b
    ensures GetFreeListIndex(a) <= GetFreeListIndex(b) < NUM_FREE_LISTS == 30
    ensures GetFreeListIndex(a) == GetFreeListIndex(b) && a < UNIQUE_THRESHOLD ==> a == b
  {
  }

  /** A decommitted block is in the list of its size or, behind what is committed, in the last list. */
  ghost predicate RightList(x: HeapBlock, i: nat) {
    x.linked && x.size > 0 &&
    (i == GetFreeListIndex(x.size) || (!x.committed && i == NUM_FREE_LISTS - 1))
  }

  ghost predicate Placed(b: seq<HeapBlock>, l: seq<seq<nat>>) {
    forall i, p :: 0 <= i < |l| && 0 <= p < |l[i]| ==> l[i][p] < |b| && RightList(b[l[i][p]], i)
  }

  ghost predicate InSome(l: seq<seq<nat>>, k: nat) {
    exists i :: 0 <= i < |l| && k in l[i]
  }

  ghost predicate Complete(b: seq<HeapBlock>, l: seq<seq<nat>>) {
    forall k :: 0 <= k < |b| && b[k].linked ==> InSome(l, k)
  }

  ghost predicate Distinct(l: seq<seq<nat>>) {
    forall i, p, j, q :: 0 <= i < |l| && 0 <= p < |l[i]| && 0 <= j < |l| && 0 <= q < |l[j]| && l[i][p] == l[j][q] ==>
      i == j && p == q
  }

  /** No block before a committed one is larger. */
  ghost predicate Ordered(b: seq<HeapBlock>, s: seq<nat>) {
    forall p, q :: 0 <= p < q < |s| && s[p] < |b| && s[q] < |b| && b[s[q]].committed ==> b[s[p]].size <= b[s[q]].size
  }

  /** Each free block is in exactly one list, the right one, at the right place. */
  ghost predicate Listed(b: seq<HeapBlock>, l: seq<seq<nat>>) {
    && |l| == NUM_FREE_LISTS
    && Placed(b, l) && Complete(b, l) && Distinct(l)
    && forall i :: 0 <= i < |l| ==> Ordered(b, l[i])
  }

  /** Changes to blocks that are in no list, and to boundary tags, do not matter to the lists. */
  lemma ListedStill(b: seq<HeapBlock>, b': seq<HeapBlock>, l: seq<seq<nat>>)
    requires Listed(b, l) && |b'| == |b|
    requires forall k :: 0 <= k < |b| ==> b'[k].linked == b[k].linked
    requires forall k :: 0 <= k < |b| && b[k].linked ==> b'[k].size == b[k].size && b'[k].committed == b[k].committed
    ensures Listed(b', l)
  {
  }

  // ----- Removal

  function Removed(s: seq<nat>, p: nat): (r: seq<nat>)
    requires p < |s|
    ensures |r| == |s| - 1 && forall q :: 0 <= q < |r| ==> r[q] == s[if q < p then q else q + 1]
  {
    s[..p] + s[p + 1..]
  }

  lemma RemovedElements(s: seq<nat>, p: nat, k: nat)
    requires p < |s|
    ensures k in Removed(s, p) ==> k in s
    ensures k in s && k != s[p] ==> k in Removed(s, p)
  {
    if k in s && k != s[p] {
      var q :| 0 <= q < |s| && s[q] == k;
      assert Removed(s, p)[if q < p then q else q - 1] == k;
    }
  }

  lemma RemovedFromLists(b: seq<HeapBlock>, l: seq<seq<nat>>, i: nat, p: nat, k: nat)
    requires Listed(b, l) && i < |l| && p < |l[i]| && l[i][p] == k
    ensures k < |b| && b[k].linked && Listed(b[k := b[k].(linked := false)], l[i := Removed(l[i], p)])
  {
    var b', l' := b[k := b[k].(linked := false)], l[i := Removed(l[i], p)];
    RemovedPlaced(b, l, i, p, k);
    RemovedComplete(b, l, i, p, k);
    RemovedDistinct(l, i, p);
    forall j | 0 <= j < |l'| ensures Ordered(b', l'[j]) {
      assert Ordered(b, l[j]);
      if j == i { RemovedOrdered(b, l[i], p); }
    }
  }

  lemma RemovedPlaced(b: seq<HeapBlock>, l: seq<seq<nat>>, i: nat, p: nat, k: nat)
    requires Placed(b, l) && Distinct(l) && i < |l| && p < |l[i]| && l[i][p] == k
    ensures k < |b| && b[k].linked && Placed(b[k := b[k].(linked := false)], l[i := Removed(l[i], p)])
  {
    hide RightList;
    var l' := l[i := Removed(l[i], p)];
    assert RightList(b[l[i][p]], i);
    LinkedIfRight(b[k], i);
    forall j, q | 0 <= j < |l'| && 0 <= q < |l'[j]|
      ensures l'[j][q] < |b| && l'[j][q] != k && RightList(b[l'[j][q]], j)
    {
      var q' := if j == i && q >= p then q + 1 else q;
      assert l'[j][q] == l[j][q'];
    }
  }

  lemma LinkedIfRight(x: HeapBlock, i: nat)
    requires RightList(x, i)
    ensures x.linked && x.size > 0 && (x.committed ==> i == GetFreeListIndex(x.size))
  {
  }

  lemma RemovedComplete(b: seq<HeapBlock>, l: seq<seq<nat>>, i: nat, p: nat, k: nat)
    requires Complete(b, l) && i < |l| && p < |l[i]| && l[i][p] == k && k < |b|
    ensures Complete(b[k := b[k].(linked := false)], l[i := Removed(l[i], p)])
  {
    var l' := l[i := Removed(l[i], p)];
    forall m | 0 <= m < |b| && b[m].linked && m != k ensures InSome(l', m) {
      assert InSome(l, m);
      var j :| 0 <= j < |l| && m in l[j];
      if j == i { RemovedElements(l[i], p, m); }
      assert m in l'[j];
    }
  }

  lemma RemovedDistinct(l: seq<seq<nat>>, i: nat, p: nat)
    requires Distinct(l) && i < |l| && p < |l[i]|
    ensures Distinct(l[i := Removed(l[i], p)])
  {
    var l' := l[i := Removed(l[i], p)];
    forall j, q, j', q' | 0 <= j < |l'| && 0 <= q < |l'[j]| && 0 <= j' < |l'| && 0 <= q' < |l'[j']|
        && l'[j][q] == l'[j'][q']
      ensures j == j' && q == q'
    {
      var r, r' := if j == i && q >= p then q + 1 else q, if j' == i && q' >= p then q' + 1 else q';
      assert l'[j][q] == l[j][r] && l'[j'][q'] == l[j'][r'];
    }
  }

  lemma RemovedOrdered(b: seq<HeapBlock>, s: seq<nat>, p: nat)
    requires Ordered(b, s) && p < |s|
    ensures Ordered(b, Removed(s, p))
  {
  }

  // ----- Insertion

  function Inserted(s: seq<nat>, p: nat, k: nat): (r: seq<nat>)
    requires p <= |s|
    ensures |r| == |s| + 1
    ensures forall q :: 0 <= q < |r| ==> r[q] == if q < p then s[q] else if q == p then k else s[q - 1]
  {
    s[..p] + [k] + s[p..]
  }

  /** Where a block may be inserted so that the list stays in order. */
  ghost predicate Fitting(b: seq<HeapBlock>, s: seq<nat>, p: nat, k: nat)
    requires k < |b|
  {
    && p <= |s|
    && (b[k].committed ==> forall q :: 0 <= q < p && s[q] < |b| ==> b[s[q]].size <= b[k].size)
    && (forall q :: p <= q < |s| && s[q] < |b| && b[s[q]].committed ==> b[k].size <= b[s[q]].size)
  }

  lemma InsertedInLists(b: seq<HeapBlock>, l: seq<seq<nat>>, i: nat, p: nat, k: nat)
    requires Listed(b, l) && i < |l| && k < |b| && !b[k].linked && RightList(b[k].(linked := true), i)
    requires Fitting(b, l[i], p, k)
    ensures Listed(b[k := b[k].(linked := true)], l[i := Inserted(l[i], p, k)])
  {
    var b', l' := b[k := b[k].(linked := true)], l[i := Inserted(l[i], p, k)];
    NotListed(b, l, k);
    InsertedPlaced(b, l, i, p, k);
    InsertedComplete(b, l, i, p, k);
    InsertedDistinct(l, i, p, k);
    forall j | 0 <= j < |l'| ensures Ordered(b', l'[j]) {
      assert Ordered(b, l[j]);
      if j == i { InsertedOrdered(b, l[i], p, k); }
    }
  }

  lemma NotListed(b: seq<HeapBlock>, l: seq<seq<nat>>, k: nat)
    requires Placed(b, l) && k < |b| && !b[k].linked
    ensures forall i, p :: 0 <= i < |l| && 0 <= p < |l[i]| ==> l[i][p] != k
  {
  }

  lemma InsertedPlaced(b: seq<HeapBlock>, l: seq<seq<nat>>, i: nat, p: nat, k: nat)
    requires Placed(b, l) && i < |l| && p <= |l[i]| && k < |b| && RightList(b[k].(linked := true), i)
    requires forall i, p :: 0 <= i < |l| && 0 <= p < |l[i]| ==> l[i][p] != k
    ensures Placed(b[k := b[k].(linked := true)], l[i := Inserted(l[i], p, k)])
  {
    hide RightList;
    var b', l' := b[k := b[k].(linked := true)], l[i := Inserted(l[i], p, k)];
    forall j, q | 0 <= j < |l'| && 0 <= q < |l'[j]| ensures l'[j][q] < |b'| && RightList(b'[l'[j][q]], j) {
      if j != i || q != p {
        var q' := if j == i && q > p then q - 1 else q;
        assert l'[j][q] == l[j][q'];
      }
    }
  }

  lemma InsertedComplete(b: seq<HeapBlock>, l: seq<seq<nat>>, i: nat, p: nat, k: nat)
    requires Complete(b, l) && i < |l| && p <= |l[i]| && k < |b|
    ensures Complete(b[k := b[k].(linked := true)], l[i := Inserted(l[i], p, k)])
  {
    var l' := l[i := Inserted(l[i], p, k)];
    assert l'[i][p] == k;
    forall m | 0 <= m < |b| && (b[m].linked || m == k) ensures InSome(l', m) {
      if m == k {
        assert m in l'[i];
      } else {
        assert InSome(l, m);
        var j :| 0 <= j < |l| && m in l[j];
        var q :| 0 <= q < |l[j]| && l[j][q] == m;
        assert l'[j][if j == i && q >= p then q + 1 else q] == m;
        assert m in l'[j];
      }
    }
  }

  lemma InsertedDistinct(l: seq<seq<nat>>, i: nat, p: nat, k: nat)
    requires Distinct(l) && i < |l| && p <= |l[i]|
    requires forall i, p :: 0 <= i < |l| && 0 <= p < |l[i]| ==> l[i][p] != k
    ensures Distinct(l[i := Inserted(l[i], p, k)])
  {
    var l' := l[i := Inserted(l[i], p, k)];
    forall j, q, j', q' | 0 <= j < |l'| && 0 <= q < |l'[j]| && 0 <= j' < |l'| && 0 <= q' < |l'[j']|
        && l'[j][q] == l'[j'][q']
      ensures j == j' && q == q'
    {
      InsertedOnce(l, i, p, k, j, q);
      InsertedOnce(l, i, p, k, j', q');
      if l'[j][q] != k {
        var r, r' := if j == i && q > p then q - 1 else q, if j' == i && q' > p then q' - 1 else q';
        assert l'[j][q] == l[j][r] && l'[j'][q'] == l[j'][r'];
      }
    }
  }

  lemma InsertedOnce(l: seq<seq<nat>>, i: nat, p: nat, k: nat, j: nat, q: nat)
    requires i < |l| && p <= |l[i]| && forall i, p :: 0 <= i < |l| && 0 <= p < |l[i]| ==> l[i][p] != k
    requires j < |l| && q < |l[i := Inserted(l[i], p, k)][j]|
    ensures l[i := Inserted(l[i], p, k)][j][q] == k <==> j == i && q == p
  {
    var r := if j == i && q > p then q - 1 else q;
    if j != i || q != p { assert l[i := Inserted(l[i], p, k)][j][q] == l[j][r]; }
  }

  lemma InsertedOrdered(b: seq<HeapBlock>, s: seq<nat>, p: nat, k: nat)
    requires Ordered(b, s) && k < |b| && Fitting(b, s, p, k)
    ensures Ordered(b, Inserted(s, p, k))
  {
  }
}
