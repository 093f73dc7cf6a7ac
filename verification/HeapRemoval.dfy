/** RemoveBlock of MMgc/GCHeap.cpp: a block leaves the array, all slots behind it slide down, and a sentinel appears
    or disappears where the remaining blocks no longer adjoin. */
module HeapRemoval {
  import opened HeapBlocks
  import opened FreeLists
  import opened HeapState

  /** The block lies between two others, which then need a sentinel between them. */
  predicate NeedSentinel(b: seq<HeapBlock>, k: nat)
    requires k < |b| && k + b[k].size < |b|
  {
    b[k].sizePrevious != 0 && b[k + b[k].size].size != 0
  }

  /** The block lies between two sentinels, one of which is then too many. */
  predicate RemoveSentinel(b: seq<HeapBlock>, k: nat)
    requires k < |b| && k + b[k].size < |b|
  {
    b[k].sizePrevious == 0 && b[k + b[k].size].size == 0
  }

  /** The slots that go are those from CutFrom up to CutTo. */
  function CutFrom(b: seq<HeapBlock>, k: nat): nat
    requires k < |b| && k + b[k].size < |b|
  {
    if NeedSentinel(b, k) then k + 1 else k
  }

  function CutTo(b: seq<HeapBlock>, k: nat): nat
    requires k < |b| && k + b[k].size < |b|
  {
    if RemoveSentinel(b, k) then k + b[k].size + 1 else k + b[k].size
  }

  function Cut<T>(s: seq<T>, lo: nat, hi: nat): (r: seq<T>)
    requires lo <= hi <= |s|
    ensures |r| == |s| - (hi - lo)
    ensures forall j :: 0 <= j < |r| ==> r[j] == if j < lo then s[j] else s[j + (hi - lo)]
  {
    s[..lo] + s[hi..]
  }

  /** The array before the slots go: the tag behind the block is right already, and so is the new sentinel. */
  function Prepared(b: seq<HeapBlock>, k: nat): (r: seq<HeapBlock>)
    requires k < |b| && 0 < b[k].size && k + b[k].size < |b|
    ensures |r| == |b|
  {
    var n := k + b[k].size;
    var need := NeedSentinel(b, k);
    var b1 := b[n := b[n].(sizePrevious := if need then 0 else b[k].sizePrevious)];
    if need then b1[k := b[k].(baseAddr := 0, size := 0, linked := false)] else b1
  }

  function Slide(i: nat, lo: nat, hi: nat): nat
    requires lo <= hi
  {
    if i < hi then i else i - (hi - lo)
  }

  function SlideAll(s: seq<nat>, lo: nat, hi: nat): (r: seq<nat>)
    requires lo <= hi
    ensures |r| == |s| && forall j :: 0 <= j < |s| ==> r[j] == Slide(s[j], lo, hi)
  {
    seq(|s|, j requires 0 <= j < |s| => Slide(s[j], lo, hi))
  }

  function SlideLists(l: seq<seq<nat>>, lo: nat, hi: nat): (r: seq<seq<nat>>)
    requires lo <= hi
    ensures |r| == |l| && forall i :: 0 <= i < |l| ==> r[i] == SlideAll(l[i], lo, hi)
  {
    seq(|l|, i requires 0 <= i < |l| => SlideAll(l[i], lo, hi))
  }

  ghost function SlideOwners(o: seq<nat>, lo: nat, hi: nat): seq<nat>
    requires lo <= hi <= |o|
  {
    SlideAll(Cut(o, lo, hi), lo, hi)
  }

  ghost function CutAddresses(addr: seq<nat>, k: nat, lo: nat, hi: nat): seq<nat>
    requires k <= lo <= hi <= |addr| && k < |addr|
  {
    Cut(if lo == k + 1 then addr[k := 0] else addr, lo, hi)
  }

  // ----- Tiling

  /** z and o after the slots from lo up to hi are gone. */
  ghost predicate AreCut(z: seq<nat>, o: seq<nat>, z': seq<nat>, o': seq<nat>, lo: nat, hi: nat) {
    && |z| == |o| && lo <= hi <= |o| && |z'| == |o'| == |o| - (hi - lo)
    && (forall j :: 0 <= j < lo ==> z'[j] == z[j] && o'[j] == o[j])
    && (forall j :: hi <= j < |o| ==> z'[j - (hi - lo)] == z[j] && o'[j - (hi - lo)] == o[j] - (hi - lo))
  }

  lemma CutTiling(z: seq<nat>, o: seq<nat>, z': seq<nat>, o': seq<nat>, lo: nat, hi: nat)
    requires AreCut(z, o, z', o', lo, hi)
    requires Part(z, o, 0, lo, |o'|) && Part(z, o, hi, |o|, |o|)
    requires forall i :: 0 <= i < lo && o[i] == i ==> i + z[i] <= lo
    ensures Tiling(z', o')
  {
    hide AreCut, Part;
    CutLengths(z, o, z', o', lo, hi);
    forall j | 0 <= j < |o'| ensures o'[j] <= j && o'[o'[j]] == o'[j] && (o'[j] == j || j < o'[j] + z'[o'[j]]) {
      if j < lo { CutLow(z, o, z', o', lo, hi, j); } else { CutHigh(z, o, z', o', lo, hi, j + (hi - lo)); }
    }
    forall i | 0 <= i < |o'| && o'[i] == i ensures i + z'[i] < |o'| {
      if i < lo { CutLow(z, o, z', o', lo, hi, i); } else { CutHigh(z, o, z', o', lo, hi, i + (hi - lo)); }
    }
    forall i, j | 0 <= i < |o'| && o'[i] == i && i <= j < i + z'[i] ensures j < |o'| && o'[j] == i {
      if i < lo {
        CutLow(z, o, z', o', lo, hi, i);
        CutLow(z, o, z', o', lo, hi, j);
        InSameBlock(z, o, 0, lo, |o'|, i, j);
      } else {
        CutHigh(z, o, z', o', lo, hi, i + (hi - lo));
        CutHigh(z, o, z', o', lo, hi, j + (hi - lo));
        InSameBlock(z, o, hi, |o|, |o|, i + (hi - lo), j + (hi - lo));
      }
    }
  }

  lemma CutLengths(z: seq<nat>, o: seq<nat>, z': seq<nat>, o': seq<nat>, lo: nat, hi: nat)
    requires AreCut(z, o, z', o', lo, hi)
    ensures |z| == |o| && lo <= hi <= |o| && |z'| == |o'| == |o| - (hi - lo)
  {
  }

  lemma InSameBlock(z: seq<nat>, o: seq<nat>, from: nat, to: nat, limit: nat, i: nat, j: nat)
    requires |z| == |o| && to <= |o| && Part(z, o, from, to, limit)
    requires from <= i < to && o[i] == i && i <= j < i + z[i]
    ensures j < |o| && o[j] == i
  {
  }

  lemma CutLow(z: seq<nat>, o: seq<nat>, z': seq<nat>, o': seq<nat>, lo: nat, hi: nat, j: nat)
    requires AreCut(z, o, z', o', lo, hi) && Part(z, o, 0, lo, |o'|) && j < lo
    ensures o'[j] == o[j] <= j && o[o[j]] == o[j] && o'[o'[j]] == o'[j] && z'[j] == z[j] && z'[o'[j]] == z[o[j]]
    ensures o'[j] == j || j < o'[j] + z'[o'[j]]
    ensures o[j] == j ==> j + z[j] < |o'|
  {
    assert InPart(z, o, 0, j);
  }

  lemma CutHigh(z: seq<nat>, o: seq<nat>, z': seq<nat>, o': seq<nat>, lo: nat, hi: nat, j: nat)
    requires AreCut(z, o, z', o', lo, hi) && Part(z, o, hi, |o|, |o|) && hi <= j < |o|
    ensures var d := hi - lo;
      && hi <= o[j] <= j && o[o[j]] == o[j] && o'[j - d] == o[j] - d && o'[o'[j - d]] == o'[j - d]
      && z'[j - d] == z[j] && z'[o[j] - d] == z[o[j]]
      && (o[j] == j || j < o[j] + z[o[j]]) && (o[j] == j ==> j + z[j] < |o|)
  {
    assert InPart(z, o, hi, j);
    var h := o[j];
    assert z'[h - (hi - lo)] == z[h] && o'[h - (hi - lo)] == o[h] - (hi - lo);
  }

  ghost predicate InPart(z: seq<nat>, o: seq<nat>, from: nat, j: nat)
    requires |z| == |o| && j < |o|
  {
    from <= o[j] <= j && o[o[j]] == o[j] && (o[j] == j || j < o[j] + z[o[j]])
  }

  /** The slots of a range belong to blocks in that range. */
  ghost predicate Part(z: seq<nat>, o: seq<nat>, from: nat, to: nat, limit: nat)
    requires |z| == |o| && to <= |o|
  {
    && (forall j :: from <= j < to ==> InPart(z, o, from, j))
    && (forall i :: from <= i < to && o[i] == i ==> i + z[i] < limit)
    && (forall i, j :: from <= i < to && o[i] == i && i <= j < i + z[i] ==> j < |o| && o[j] == i)
  }

  /** Below a block, and from a block on, the slots belong together. */
  lemma Parts(z: seq<nat>, o: seq<nat>, m: nat)
    requires Tiling(z, o) && m <= |o| && (m < |o| ==> o[m] == m)
    ensures Part(z, o, m, |o|, |o|)
    ensures forall i :: 0 <= i < m && o[i] == i ==> i + z[i] <= m
    ensures forall j :: m <= j < |o| ==> o[j] >= m
  {
  }

  // ----- The neighbours of the block

  /** What lies before and behind the block, and what is cut out. */
  lemma Around(s: State, k: nat)
    requires Ok(s, |s.b|) && Taken(s, k)
    ensures var n := k + s.b[k].size;
      && n < |s.b| == |s.o| == |s.addr| == |s.zero| == |P(s)| && s.o[n] == n && k < n
      && (s.b[k].sizePrevious == 0 <==> k == 0 || P(s)[k - 1] == Sentinel)
      && (s.b[n].size == 0 <==> P(s)[n] == Sentinel)
      && (s.b[n].sizePrevious == s.b[k].size)
      && k <= CutFrom(s.b, k) <= n <= CutTo(s.b, k) <= |s.b|
      && (CutTo(s.b, k) < |s.b| ==> s.o[CutTo(s.b, k)] == CutTo(s.b, k))
  {
    hide Tiling, Listed, Coalesced, Addressed, Based, Clean;
    Lengths(s);
    PagesAre(s, |s.b|, k);
    TagLeadsBack(s, |s.b|, k);
    FreeHead(s, |s.b|, k + s.b[k].size);
    NextHead(s.b, s.o, k);
    assert TagAt(s.b, s.o, k + s.b[k].size);
    if s.b[k + s.b[k].size].size == 0 { AfterSentinel(s, k + s.b[k].size); }
    if k > 0 { SizePreviousZero(s, k); } else { assert TagAt(s.b, s.o, 0); }
    InBlock(s.b, s.o, k, k + s.b[k].size - 1);
  }

  lemma AfterSentinel(s: State, n: nat)
    requires Tiles(s.b, s.o) && n < |s.b| && s.o[n] == n && s.b[n].size == 0
    ensures n + 1 < |s.b| ==> s.o[n + 1] == n + 1
  {
    if n + 1 < |s.b| {
      var h := s.o[n + 1];
      assert h <= n + 1;
    }
  }

  lemma SizePreviousZero(s: State, k: nat)
    requires Ok(s, |s.b|) && k < |s.b| == |s.o| && s.o[k] == k && 0 < k
    ensures |P(s)| == |s.b|
    ensures s.b[k].sizePrevious == 0 <==> P(s)[k - 1] == Sentinel
    ensures s.b[k].sizePrevious == s.b[s.o[k - 1]].size && s.o[k - 1] < k
    ensures s.b[k].sizePrevious == 0 ==> s.o[k - 1] == k - 1
  {
    hide Tiling, Listed, Coalesced, Addressed, Based, Clean;
    assert TagAt(s.b, s.o, k);
    PrevHead(s.b, s.o, k);
  }

  // ----- The slots after the removal

  /** Entry by entry: what stays below the block at k, the new sentinel, and what slides down from behind it, where
      n is the next block, and the slots from lo up to hi are gone. */
  ghost predicate Gone(s: State, s': State, k: nat, n: nat, lo: nat, hi: nat) {
    && |s.b| == |s.o| == |s.addr| == |s.zero| && k <= lo <= n <= hi <= |s.b|
    && |s'.b| == |s'.o| == |s'.addr| == |s'.zero| == |s.b| - (hi - lo)
    && s'.l == SlideLists(s.l, lo, hi)
    && (forall j :: 0 <= j < k ==>
          s'.b[j] == s.b[j] && s'.o[j] == Slide(s.o[j], lo, hi) && s'.addr[j] == s.addr[j] && s'.zero[j] == s.zero[j])
    && (forall j :: hi <= j < |s.b| ==>
          && (j != n ==> s'.b[j - (hi - lo)] == s.b[j])
          && s'.o[j - (hi - lo)] == Slide(s.o[j], lo, hi)
          && s'.addr[j - (hi - lo)] == s.addr[j] && s'.zero[j - (hi - lo)] == s.zero[j])
  }

  /** The slots in between. */
  ghost predicate Joined(s: State, s': State, k: nat, n: nat, lo: nat, hi: nat)
    requires Gone(s, s', k, n, lo, hi) && n < |s.b|
  {
    && (hi == n ==> s'.b[lo] == s.b[n].(sizePrevious := if lo == k then s.b[k].sizePrevious else 0))
    && (lo == k || (lo == k + 1 && s'.o[k] == Slide(s.o[k], lo, hi) && s'.addr[k] == 0
                    && s'.b[k] == s.b[k].(baseAddr := 0, size := 0, linked := false)))
  }

  lemma PreparedSlots(b: seq<HeapBlock>, k: nat)
    requires k < |b| && 0 < b[k].size && k + b[k].size < |b|
    ensures var r := Prepared(b, k); var n := k + b[k].size; var need := NeedSentinel(b, k);
      && (forall j :: 0 <= j < |b| && j != k && j != n ==> r[j] == b[j])
      && r[n] == b[n].(sizePrevious := if need then 0 else b[k].sizePrevious)
      && r[k] == (if need then b[k].(baseAddr := 0, size := 0, linked := false) else b[k])
  {
  }

  lemma GoneBlocks(b: seq<HeapBlock>, b': seq<HeapBlock>, k: nat, n: nat, lo: nat, hi: nat)
    requires k < |b| && 0 < b[k].size && n == k + b[k].size < |b| && lo == CutFrom(b, k) && hi == CutTo(b, k) <= |b|
    requires b' == Cut(Prepared(b, k), lo, hi)
    ensures |b'| == |b| - (hi - lo)
    ensures forall j :: 0 <= j < k ==> b'[j] == b[j]
    ensures forall j :: hi <= j < |b| && j != n ==> b'[j - (hi - lo)] == b[j]
    ensures hi == n ==> b'[lo] == b[n].(sizePrevious := if lo == k then b[k].sizePrevious else 0)
    ensures lo == k || (lo == k + 1 && b'[k] == b[k].(baseAddr := 0, size := 0, linked := false))
  {
    hide Prepared;
    PreparedSlots(b, k);
  }

  lemma GoneOwners(o: seq<nat>, k: nat, lo: nat, hi: nat)
    requires k <= lo <= k + 1 && lo <= hi <= |o|
    ensures var r := SlideOwners(o, lo, hi);
      && |r| == |o| - (hi - lo)
      && (forall j :: 0 <= j < lo ==> r[j] == Slide(o[j], lo, hi))
      && (forall j :: hi <= j < |o| ==> r[j - (hi - lo)] == Slide(o[j], lo, hi))
  {
    hide Slide;
  }

  lemma GoneAddresses(addr: seq<nat>, k: nat, lo: nat, hi: nat)
    requires k <= lo <= k + 1 && k < |addr| && lo <= hi <= |addr|
    ensures var r := CutAddresses(addr, k, lo, hi);
      && |r| == |addr| - (hi - lo)
      && (forall j :: 0 <= j < k ==> r[j] == addr[j]) && (lo == k + 1 ==> r[k] == 0)
      && (forall j :: hi <= j < |addr| ==> r[j - (hi - lo)] == addr[j])
  {
  }

  lemma GoneZero(zero: seq<bool>, zero': seq<bool>, k: nat, lo: nat, hi: nat)
    requires k <= lo <= hi <= |zero| && zero' == Cut(zero, lo, hi)
    ensures |zero'| == |zero| - (hi - lo)
    ensures forall j :: 0 <= j < k ==> zero'[j] == zero[j]
    ensures forall j :: hi <= j < |zero| ==> zero'[j - (hi - lo)] == zero[j]
  {
  }

  lemma RemovedGone(s: State, s': State, k: nat, n: nat, lo: nat, hi: nat)
    requires k < |s.b| && 0 < s.b[k].size && |s.o| == |s.addr| == |s.zero| == |s.b| && n == k + s.b[k].size < |s.b|
    requires lo == CutFrom(s.b, k) && hi == CutTo(s.b, k) && n <= hi <= |s.b|
    requires s'.b == Cut(Prepared(s.b, k), lo, hi) && s'.l == SlideLists(s.l, lo, hi)
    requires s'.o == SlideOwners(s.o, lo, hi) && s'.addr == CutAddresses(s.addr, k, lo, hi)
    requires s'.zero == Cut(s.zero, lo, hi)
    ensures Gone(s, s', k, n, lo, hi) && Joined(s, s', k, n, lo, hi)
  {
    hide Slide, SlideOwners, CutAddresses, Prepared, Cut, SlideLists, Taken, CutTo;
    GoneBlocks(s.b, s'.b, k, n, lo, hi);
    GoneOwners(s.o, k, lo, hi);
    GoneAddresses(s.addr, k, lo, hi);
    GoneZero(s.zero, s'.zero, k, lo, hi);
  }

  /** All that is known of a block, its neighbours, and the state without it. */
  ghost predicate Removal(s: State, s': State, k: nat, n: nat, lo: nat, hi: nat) {
    && Ok(s, |s.b|) && Taken(s, k) && n == k + s.b[k].size < |s.b|
    && Gone(s, s', k, n, lo, hi) && Joined(s, s', k, n, lo, hi)
    && s.o[n] == n && |P(s)| == |s.b| && (hi < |s.b| ==> s.o[hi] == hi)
    && (lo == k + 1 <==> k > 0 && P(s)[k - 1] != Sentinel && P(s)[n] != Sentinel)
    && (hi == n + 1 <==> (k == 0 || P(s)[k - 1] == Sentinel) && P(s)[n] == Sentinel)
    && (hi == n || hi == n + 1) && (lo == k || lo == k + 1)
  }

  lemma IsRemoval(s: State, s': State, k: nat)
    requires Ok(s, |s.b|) && Taken(s, k)
    requires k + s.b[k].size < |s.b| == |s.o| == |s.addr| == |s.zero| && CutTo(s.b, k) <= |s.b|
    requires k <= CutFrom(s.b, k) <= k + s.b[k].size <= CutTo(s.b, k)
    requires var lo, hi := CutFrom(s.b, k), CutTo(s.b, k);
      && s'.b == Cut(Prepared(s.b, k), lo, hi) && s'.l == SlideLists(s.l, lo, hi)
      && s'.o == SlideOwners(s.o, lo, hi) && s'.addr == CutAddresses(s.addr, k, lo, hi)
          && s'.zero == Cut(s.zero, lo, hi)
    ensures Removal(s, s', k, k + s.b[k].size, CutFrom(s.b, k), CutTo(s.b, k))
  {
    hide Ok, Taken, Gone, Joined, Prepared, Cut, SlideLists, SlideOwners, CutAddresses, Pages;
    Around(s, k);
    TakenIs(s, k);
    RemovedGone(s, s', k, k + s.b[k].size, CutFrom(s.b, k), CutTo(s.b, k));
  }

  // ----- The invariants after the removal

  /** Slots below the block belong to blocks below it, slots behind it to blocks behind it. */
  lemma Sides(s: State, s': State, k: nat, n: nat, lo: nat, hi: nat, j: nat)
    requires Removal(s, s', k, n, lo, hi) && j < |s.b|
    ensures |s.o| == |s.b| == |s'.b| + (hi - lo) && lo <= hi <= |s.b| && |s'.o| == |s'.b|
    ensures j < k ==> s.o[j] <= j && s'.o[j] == s.o[j]
    ensures lo == k + 1 ==> s'.o[k] == k
    ensures hi <= j ==> hi <= s.o[j] <= j && s'.o[j - (hi - lo)] == s.o[j] - (hi - lo)
  {
    hide Listed, Coalesced, Addressed, Based, Clean, Tags, Joined, Cleared;
    TakenIs(s, k);
    SidesOf(s, hi, j);
    assert lo == k + 1 ==> Joined(s, s', k, n, lo, hi);
    if lo == k + 1 { NewSentinel(s, s', k, n, lo, hi); }
  }

  lemma NewSentinel(s: State, s': State, k: nat, n: nat, lo: nat, hi: nat)
    requires Gone(s, s', k, n, lo, hi) && n < |s.b| && Joined(s, s', k, n, lo, hi) && lo == k + 1 && s.o[k] == k
    requires k < hi
    ensures k < |s'.o| ==> s'.o[k] == k
  {
  }

  lemma SidesOf(s: State, hi: nat, j: nat)
    requires Tiles(s.b, s.o) && hi <= |s.b| && (hi < |s.b| ==> s.o[hi] == hi) && j < |s.b|
    ensures |s.o| == |s.b| && s.o[j] <= j && (hi <= j ==> hi <= s.o[j])
  {
    Parts(Sizes(s.b), s.o, hi);
  }

  /** The sizes with the new sentinel in place, if there is one. */
  ghost function SizesWith(s: State, k: nat, lo: nat): (z: seq<nat>)
    requires k < |s.b|
    ensures |z| == |s.b| && forall j :: 0 <= j < |s.b| ==> z[j] == if j == k < lo then 0 else s.b[j].size
  {
    if lo == k + 1 || k < lo then Sizes(s.b)[k := 0] else Sizes(s.b)
  }

  lemma RemovedTiles(s: State, s': State, k: nat, n: nat, lo: nat, hi: nat)
    requires Removal(s, s', k, n, lo, hi)
    ensures Tiles(s'.b, s'.o)
  {
    hide Listed, Coalesced, Addressed, Based, Clean, Tags, Tiling, AreCut, Part;
    var z := SizesWith(s, k, lo);
    SizesCut(s, s', k, n, lo, hi, z);
    PartsOf(s, s', k, n, lo, hi, z);
    CutTiling(z, s.o, Sizes(s'.b), s'.o, lo, hi);
    RemovedCleared(s, s', k, n, lo, hi);
  }

  lemma SizesCut(s: State, s': State, k: nat, n: nat, lo: nat, hi: nat, z: seq<nat>)
    requires Removal(s, s', k, n, lo, hi) && z == SizesWith(s, k, lo)
    ensures AreCut(z, s.o, Sizes(s'.b), s'.o, lo, hi)
  {
    hide Ok, Slide;
    forall j | 0 <= j < |s.b| ensures
      && (j < lo ==> j < |s'.b| && Sizes(s'.b)[j] == z[j] && s'.o[j] == s.o[j])
      && (hi <= j ==> hi <= s.o[j] && Sizes(s'.b)[j - (hi - lo)] == z[j] && s'.o[j - (hi - lo)] == s.o[j] - (hi - lo))
    {
      Sides(s, s', k, n, lo, hi, j);
    }
  }

  lemma PartsOf(s: State, s': State, k: nat, n: nat, lo: nat, hi: nat, z: seq<nat>)
    requires Removal(s, s', k, n, lo, hi) && z == SizesWith(s, k, lo) && |s'.o| == |s.o| - (hi - lo)
    ensures |z| == |s.o| && lo <= |s'.o| && hi <= |s.o| && Part(z, s.o, 0, lo, |s'.o|) && Part(z, s.o, hi, |s.o|, |s.o|)
    ensures forall i :: 0 <= i < lo && s.o[i] == i ==> i + z[i] <= lo
  {
    hide Listed, Coalesced, Addressed, Based, Clean, Tags, Slide, Tiling, Part, Cleared;
    TakenIs(s, k);
    Parts(Sizes(s.b), s.o, k);
    Parts(Sizes(s.b), s.o, hi);
    UpperPart(Sizes(s.b), z, s.o, k, hi);
    if k > 0 { BeforeBlock(s, s', k, n, lo, hi); }
    LowerPart(Sizes(s.b), z, s.o, k, lo, |s'.o|);
  }

  lemma UpperPart(z: seq<nat>, z': seq<nat>, o: seq<nat>, k: nat, hi: nat)
    requires |z| == |z'| == |o| && k < hi <= |o| && Part(z, o, hi, |o|, |o|)
    requires forall j :: 0 <= j < |z| && j != k ==> z'[j] == z[j]
    ensures Part(z', o, hi, |o|, |o|)
  {
    forall j | hi <= j < |o| ensures InPart(z', o, hi, j) { assert InPart(z, o, hi, j); }
  }

  lemma LowerPart(z: seq<nat>, z': seq<nat>, o: seq<nat>, k: nat, lo: nat, limit: nat)
    requires Tiling(z, o) && |z'| == |z| && k < |o| && o[k] == k && k <= lo <= k + 1 && lo <= |o| && lo <= limit
    requires forall j :: 0 <= j < |z| ==> z'[j] == if j == k < lo then 0 else z[j]
    requires forall i :: 0 <= i < k && o[i] == i ==> i + z[i] <= k && (i + z[i] == k ==> k < limit)
    ensures Part(z', o, 0, lo, limit)
  {
    forall j | 0 <= j < lo ensures InPart(z', o, 0, j) {
      assert o[o[j]] == o[j];
    }
    forall i | 0 <= i < lo && o[i] == i ensures i + z'[i] < limit {
      if i < k { assert i + z[i] <= k; }
    }
  }

  /** A block that ends at k ends where something remains. */
  lemma BeforeBlock(s: State, s': State, k: nat, n: nat, lo: nat, hi: nat)
    requires Removal(s, s', k, n, lo, hi) && 0 < k
    ensures |s.o| == |s.b|
    ensures forall i :: 0 <= i < k && s.o[i] == i && i + s.b[i].size == k ==> hi < |s.b| || lo == k + 1
    ensures lo == k + 1 ==> hi == n
  {
    hide Listed, Coalesced, Addressed, Based, Clean, Tags, Tiling;
    forall i | 0 <= i < k && s.o[i] == i && i + s.b[i].size == k ensures P(s)[k - 1] != Sentinel {
      PagesOfBlock(s.b, s.o, i);
    }
  }

  lemma RemovedCleared(s: State, s': State, k: nat, n: nat, lo: nat, hi: nat)
    requires Removal(s, s', k, n, lo, hi)
    ensures |s'.b| == |s'.o| && Cleared(s'.b, s'.o)
  {
    hide Listed, Coalesced, Addressed, Based, Clean, Tags, Tiling, Slide;
    forall j | 0 <= j < |s'.o| ensures
      && (s'.o[j] != j ==> s'.b[j].size == 0 && s'.b[j].sizePrevious == 0 && s'.b[j].baseAddr == 0)
      && (s'.b[j].linked ==> s'.b[j].size > 0)
    {
      if j < lo {
        Sides(s, s', k, n, lo, hi, j);
      } else {
        Sides(s, s', k, n, lo, hi, j + (hi - lo));
      }
    }
  }

  ghost function SlidePage(p: Page, d: int): Page {
    if p.Used? && p.start >= d then Used(p.start - d) else p
  }

  /** The pages stay what they were; those behind the block have slid down. */
  lemma RemovedPages(s: State, s': State, k: nat, n: nat, lo: nat, hi: nat)
    requires Removal(s, s', k, n, lo, hi)
    ensures |P(s')| == |s'.b| == |s.b| - (hi - lo) && |P(s)| == |s.b|
    ensures forall j :: 0 <= j < k ==> P(s')[j] == P(s)[j]
    ensures lo == k + 1 ==> P(s')[k] == Sentinel
    ensures forall j :: hi <= j < |s.b| ==> P(s')[j - (hi - lo)] == SlidePage(P(s)[j], hi - lo)
  {
    hide Ok, Slide;
    forall j | 0 <= j < |s.b| ensures
      && (j < k ==> j < |s'.o| && PageOf(s'.b, s'.o, j) == PageOf(s.b, s.o, j))
      && (hi <= j ==>
            && j - (hi - lo) < |s'.o|
            && PageOf(s'.b, s'.o, j - (hi - lo)) == SlidePage(PageOf(s.b, s.o, j), hi - lo))
    {
      Sides(s, s', k, n, lo, hi, j);
    }
    Sides(s, s', k, n, lo, hi, k);
  }

  lemma RemovedTags(s: State, s': State, k: nat, n: nat, lo: nat, hi: nat)
    requires Removal(s, s', k, n, lo, hi) && Tiles(s'.b, s'.o)
    ensures Tags(s'.b, s'.o, |s'.b|)
  {
    hide Ok, Slide, Tiles;
    forall j | 0 <= j < |s'.o| && s'.o[j] == j && j != |s'.b| ensures TagAt(s'.b, s'.o, j) {
      RemovedTag(s, s', k, n, lo, hi, j);
    }
  }

  lemma RemovedTag(s: State, s': State, k: nat, n: nat, lo: nat, hi: nat, j: nat)
    requires Removal(s, s', k, n, lo, hi) && j < |s'.b| == |s'.o| && s'.o[j] == j
    ensures TagAt(s'.b, s'.o, j)
  {
    hide Ok, Slide, Pages, TagAt, Gone, Joined;
    Sides(s, s', k, n, lo, hi, k);
    if j < lo {
      LowTag(s, s', k, n, lo, hi, j);
    } else if j > lo {
      HighTag(s, s', k, n, lo, hi, j + (hi - lo));
    } else {
      JoinTag(s, s', k, n, lo, hi);
    }
  }

  lemma LowTag(s: State, s': State, k: nat, n: nat, lo: nat, hi: nat, j: nat)
    requires Removal(s, s', k, n, lo, hi) && j < lo && j < |s'.b| == |s'.o| && s'.o[j] == j
    ensures TagAt(s'.b, s'.o, j)
  {
    hide Ok, Slide, Pages;
    OldTags(s);
    TakenIs(s, k);
    Sides(s, s', k, n, lo, hi, j);
    assert TagAt(s.b, s.o, j);
    if j > 0 { Sides(s, s', k, n, lo, hi, j - 1); }
  }

  lemma HighTag(s: State, s': State, k: nat, n: nat, lo: nat, hi: nat, i: nat)
    requires Removal(s, s', k, n, lo, hi) && hi < i < |s.b| && |s'.b| == |s'.o| == |s.b| - (hi - lo)
    requires s'.o[i - (hi - lo)] == i - (hi - lo)
    ensures TagAt(s'.b, s'.o, i - (hi - lo))
  {
    hide Ok, Slide, Pages;
    OldTags(s);
    Sides(s, s', k, n, lo, hi, i);
    Sides(s, s', k, n, lo, hi, i - 1);
    assert TagAt(s.b, s.o, i);
  }

  lemma OldTags(s: State)
    requires Ok(s, |s.b|)
    ensures |s.o| == |s.b|
    ensures forall j {:trigger TagAt(s.b, s.o, j)} :: 0 <= j < |s.b| && s.o[j] == j ==> TagAt(s.b, s.o, j)
  {
  }

  /** The tag where the two sides now meet. */
  lemma JoinTag(s: State, s': State, k: nat, n: nat, lo: nat, hi: nat)
    requires Removal(s, s', k, n, lo, hi) && lo < |s'.b| == |s'.o| && hi < |s.b|
    ensures TagAt(s'.b, s'.o, lo)
  {
    hide Slide, Tiling, Listed, Coalesced, Addressed, Based, Clean, Cleared;
    TakenIs(s, k);
    if k > 0 {
      SizePreviousZero(s, k);
      Sides(s, s', k, n, lo, hi, k - 1);
    }
    Sides(s, s', k, n, lo, hi, k);
    if k == 0 { assert TagAt(s.b, s.o, k); }
    if hi == n + 1 {
      assert TagAt(s.b, s.o, hi);
      SentinelSize(s, n);
    }
  }

  lemma SentinelSize(s: State, n: nat)
    requires Ok(s, |s.b|) && n < |s.b| == |s.o| && s.o[n] == n && |P(s)| == |s.b| && P(s)[n] == Sentinel
    ensures s.b[n].size == 0
  {
  }

  lemma RemovedCoalesced(s: State, s': State, k: nat, n: nat, lo: nat, hi: nat)
    requires Removal(s, s', k, n, lo, hi)
    ensures Coalesced(s'.o, P(s'))
  {
    hide Slide, Pages, Tiles, Listed, Addressed, Based, Clean, Tags, SlidePage;
    RemovedPages(s, s', k, n, lo, hi);
    forall j | 0 < j < |s'.o| && s'.o[j] == j && P(s')[j].Free? ensures P(s')[j - 1] != P(s')[j] {
      FreeStill(s, s', k, n, lo, hi, j);
    }
  }

  lemma FreeStill(s: State, s': State, k: nat, n: nat, lo: nat, hi: nat, j: nat)
    requires Removal(s, s', k, n, lo, hi) && 0 < j < |s'.o| == |P(s')| && s'.o[j] == j && P(s')[j].Free?
    ensures P(s')[j - 1] != P(s')[j]
  {
    hide Slide, Pages, Tiles, Listed, Addressed, Based, Clean, Tags, Gone, Joined;
    RemovedPages(s, s', k, n, lo, hi);
    Sides(s, s', k, n, lo, hi, k);
    var d := hi - lo;
    if j < lo {
      Sides(s, s', k, n, lo, hi, j);
    } else {
      Sides(s, s', k, n, lo, hi, j + d);
      assert P(s')[j] == SlidePage(P(s)[j + d], d);
      if j > lo { assert P(s')[j - 1] == SlidePage(P(s)[j - 1 + d], d); }
    }
  }

  lemma RemovedAddressed(s: State, s': State, k: nat, n: nat, lo: nat, hi: nat)
    requires Removal(s, s', k, n, lo, hi)
    ensures Addressed(s'.addr, P(s'))
  {
    hide Slide, Pages, Tiles, Listed, Coalesced, Based, Clean, Tags;
    RemovedPages(s, s', k, n, lo, hi);
    forall j | 0 <= j < |s'.addr| ensures s'.addr[j] == 0 <==> P(s')[j] == Sentinel {
      if j >= lo { assert s'.addr[j] == s.addr[j + (hi - lo)]; }
    }
    forall j | 0 < j < |s'.addr| && s'.addr[j - 1] > 0 && s'.addr[j] > 0 ensures s'.addr[j] == s'.addr[j - 1] + 1 {
      if j >= lo { assert s'.addr[j] == s.addr[j + (hi - lo)]; }
      if j > lo { assert s'.addr[j - 1] == s.addr[j - 1 + (hi - lo)]; }
    }
  }

  lemma RemovedBased(s: State, s': State, k: nat, n: nat, lo: nat, hi: nat)
    requires Removal(s, s', k, n, lo, hi)
    ensures Based(s'.b, s'.o, s'.addr)
  {
    hide Slide, Pages, Tiles, Listed, Coalesced, Addressed, Clean, Tags;
    forall j | 0 <= j < |s'.o| && s'.o[j] == j ensures s'.b[j].baseAddr == s'.addr[j] {
      if j < lo {
        Sides(s, s', k, n, lo, hi, j);
      } else {
        Sides(s, s', k, n, lo, hi, j + (hi - lo));
      }
    }
  }

  lemma RemovedClean(s: State, s': State, k: nat, n: nat, lo: nat, hi: nat)
    requires Removal(s, s', k, n, lo, hi) && Tiles(s'.b, s'.o)
    ensures Clean(s'.b, s'.zero)
  {
    hide Slide, Pages, Tiles, Listed, Coalesced, Addressed, Based, Tags;
    forall j | 0 <= j < |s'.b| && s'.b[j].linked ensures CleanAt(s'.b, s'.zero, j) {
      if j < k {
        EndsBelow(s, s', k, n, lo, hi, j);
        assert CleanAt(s.b, s.zero, j);
      } else if lo <= j {
        EndsBehind(s, j + (hi - lo));
        assert CleanAt(s.b, s.zero, j + (hi - lo));
        if !s'.b[j].committed || !s'.b[j].dirty { ZeroSlides(s, s', k, n, lo, hi, j, j + s'.b[j].size); }
      }
    }
  }

  lemma ZeroSlides(s: State, s': State, k: nat, n: nat, lo: nat, hi: nat, j: nat, e: nat)
    requires Gone(s, s', k, n, lo, hi) && lo <= j <= e && e + (hi - lo) <= |s.b|
    requires ZeroOn(s.zero, j + (hi - lo), e + (hi - lo))
    ensures ZeroOn(s'.zero, j, e)
  {
    forall i | j <= i < e ensures s'.zero[i] {
      assert s'.zero[i + (hi - lo) - (hi - lo)] == s.zero[i + (hi - lo)];
    }
  }

  lemma EndsBelow(s: State, s': State, k: nat, n: nat, lo: nat, hi: nat, j: nat)
    requires Removal(s, s', k, n, lo, hi) && j < k && s.b[j].linked
    ensures j + s.b[j].size <= k
  {
    hide Slide, Pages, Listed, Coalesced, Addressed, Based, Clean, Tags, Tiling, Gone, Joined;
    TakenIs(s, k);
    IsHead(s, |s.b|, j);
    Parts(Sizes(s.b), s.o, k);
  }

  lemma EndsBehind(s: State, j: nat)
    requires Ok(s, |s.b|) && j < |s.b|
    ensures s.b[j].linked ==> j + s.b[j].size < |s.b|
  {
    hide Tiling, Listed, Coalesced, Addressed, Based, Clean, Tags;
    if s.b[j].linked { IsHead(s, |s.b|, j); }
  }

  // ----- The lists

  lemma RemovedLists(s: State, s': State, k: nat, n: nat, lo: nat, hi: nat)
    requires Removal(s, s', k, n, lo, hi)
    ensures Listed(s'.b, s'.l)
  {
    hide Ok, Slide, RightList, Ordered, Complete, Distinct, Gone, Joined;
    OldLists(s);
    RemovedPlaced(s, s', k, n, lo, hi);
    RemovedComplete(s, s', k, n, lo, hi);
    SlideLength(s, s', k, n, lo, hi);
    forall i | 0 <= i < |s'.l| ensures Ordered(s'.b, s'.l[i]) {
      RemovedOrder(s, s', k, n, lo, hi, i);
    }
    RemovedDistinct(s, s', k, n, lo, hi);
  }

  lemma OldLists(s: State)
    requires Ok(s, |s.b|)
    ensures |s.l| == NUM_FREE_LISTS && Placed(s.b, s.l) && Complete(s.b, s.l) && Distinct(s.l)
    ensures forall i :: 0 <= i < |s.l| ==> Ordered(s.b, s.l[i])
  {
  }

  lemma SlideLength(s: State, s': State, k: nat, n: nat, lo: nat, hi: nat)
    requires Gone(s, s', k, n, lo, hi)
    ensures s'.l == SlideLists(s.l, lo, hi) && |s'.l| == |s.l|
  {
  }

  lemma FreeSlides(s: State, s': State, k: nat, n: nat, lo: nat, hi: nat, i: nat)
    requires Removal(s, s', k, n, lo, hi) && i < |s.b| && s.b[i].linked
    ensures lo <= hi && Slide(i, lo, hi) < |s'.b| && (i < k || hi <= i)
    ensures s'.b[Slide(i, lo, hi)] == s.b[i].(sizePrevious := s'.b[Slide(i, lo, hi)].sizePrevious)
  {
    hide Pages, Tiling, Listed, Coalesced, Addressed, Based, Clean, Tags, Gone, Joined;
    TakenIs(s, k);
    IsHead(s, |s.b|, i);
    BlockSlides(s, s', k, n, lo, hi, i);
  }

  /** Every other block keeps its address, its size and its flags, in its new place. */
  lemma BlockSlides(s: State, s': State, k: nat, n: nat, lo: nat, hi: nat, i: nat)
    requires Removal(s, s', k, n, lo, hi) && i < |s.b| == |s.o| && s.o[i] == i && s.b[i].size > 0 && i != k
    ensures i < k || hi <= i
    ensures lo <= hi && Slide(i, lo, hi) < |s'.b|
    ensures s'.b[Slide(i, lo, hi)] == s.b[i].(sizePrevious := s'.b[Slide(i, lo, hi)].sizePrevious)
  {
    hide Pages, Tiling, Listed, Coalesced, Addressed, Based, Clean, Tags;
    TakenIs(s, k);
    NotInside(s, k, i);
    if hi == n + 1 { SentinelSize(s, n); }
  }

  lemma NotInside(s: State, k: nat, i: nat)
    requires Tiles(s.b, s.o) && k < |s.b| && s.o[k] == k && i < |s.b| && s.o[i] == i && i != k
    ensures i < k || k + s.b[k].size <= i
  {
    if k < i < k + s.b[k].size { InBlock(s.b, s.o, k, i); }
  }

  lemma RemovedPlaced(s: State, s': State, k: nat, n: nat, lo: nat, hi: nat)
    requires Removal(s, s', k, n, lo, hi)
    ensures Placed(s'.b, s'.l)
  {
    hide Ok, Slide, Gone, Joined;
    OldLists(s);
    SlideLength(s, s', k, n, lo, hi);
    forall i, p | 0 <= i < |s'.l| && 0 <= p < |s'.l[i]| ensures s'.l[i][p] < |s'.b| && RightList(s'.b[s'.l[i][p]], i) {
      assert RightList(s.b[s.l[i][p]], i);
      FreeSlides(s, s', k, n, lo, hi, s.l[i][p]);
    }
  }

  lemma RemovedComplete(s: State, s': State, k: nat, n: nat, lo: nat, hi: nat)
    requires Removal(s, s', k, n, lo, hi)
    ensures Complete(s'.b, s'.l)
  {
    hide Ok, Gone, Joined, Slide, SlideLists, InSome;
    OldLists(s);
    SlideLength(s, s', k, n, lo, hi);
    Sides(s, s', k, n, lo, hi, k);
    forall j | 0 <= j < |s'.b| && s'.b[j].linked ensures InSome(s'.l, j) {
      LinkedBefore(s, s', k, n, lo, hi, j);
      var i := if j < lo then j else j + (hi - lo);
      assert InSome(s.l, i);
      SomeSlides(s.l, lo, hi, i);
    }
  }

  lemma SomeSlides(l: seq<seq<nat>>, lo: nat, hi: nat, i: nat)
    requires lo <= hi && InSome(l, i)
    ensures InSome(SlideLists(l, lo, hi), Slide(i, lo, hi))
  {
    hide Slide;
    var m :| 0 <= m < |l| && i in l[m];
    var p :| 0 <= p < |l[m]| && l[m][p] == i;
    var l' := SlideLists(l, lo, hi);
    assert l'[m][p] == Slide(i, lo, hi);
    assert Slide(i, lo, hi) in l'[m];
  }

  lemma LinkedBefore(s: State, s': State, k: nat, n: nat, lo: nat, hi: nat, j: nat)
    requires Removal(s, s', k, n, lo, hi) && j < |s'.b| && s'.b[j].linked
    ensures |s'.b| == |s.b| - (hi - lo) && lo <= hi
    ensures j < k || lo <= j
    ensures var i := if j < lo then j else j + (hi - lo); i < |s.b| && s.b[i].linked && Slide(i, lo, hi) == j
  {
    hide Ok;
  }

  lemma RemovedOrder(s: State, s': State, k: nat, n: nat, lo: nat, hi: nat, i: nat)
    requires Removal(s, s', k, n, lo, hi) && i < |s'.l| == |s.l| && s'.l[i] == SlideAll(s.l[i], lo, hi)
    requires Ordered(s.b, s.l[i])
    requires Placed(s.b, s.l)
    ensures Ordered(s'.b, s'.l[i])
  {
    hide Ok, Slide, Gone, Joined;
    forall p | 0 <= p < |s.l[i]| ensures
      s.l[i][p] < |s.b| && s'.l[i][p] < |s'.b| && s'.b[s'.l[i][p]].size == s.b[s.l[i][p]].size
      && s'.b[s'.l[i][p]].committed == s.b[s.l[i][p]].committed
    {
      assert RightList(s.b[s.l[i][p]], i);
      FreeSlides(s, s', k, n, lo, hi, s.l[i][p]);
    }
  }

  lemma RemovedDistinct(s: State, s': State, k: nat, n: nat, lo: nat, hi: nat)
    requires Removal(s, s', k, n, lo, hi) && Distinct(s.l) && Placed(s.b, s.l) && s'.l == SlideLists(s.l, lo, hi)
    ensures Distinct(s'.l)
  {
    hide Ok, Gone, Joined;
    forall i, p, j, q | 0 <= i < |s'.l| && 0 <= p < |s'.l[i]| && 0 <= j < |s'.l| && 0 <= q < |s'.l[j]|
        && s'.l[i][p] == s'.l[j][q]
      ensures i == j && p == q
    {
      assert RightList(s.b[s.l[i][p]], i) && RightList(s.b[s.l[j][q]], j);
      FreeSlides(s, s', k, n, lo, hi, s.l[i][p]);
      FreeSlides(s, s', k, n, lo, hi, s.l[j][q]);
      assert s.l[i][p] == s.l[j][q];
    }
  }

  /** The invariants hold without the block, and with a sentinel more or less. */
  lemma RemovedOk(s: State, s': State, k: nat, n: nat, lo: nat, hi: nat)
    requires Removal(s, s', k, n, lo, hi)
    ensures Ok(s', |s'.b|)
  {
    hide Removal, Tiles, Tags, Coalesced, Based, Addressed, Listed, Clean, Pages;
    RemovedTiles(s, s', k, n, lo, hi);
    RemovedTags(s, s', k, n, lo, hi);
    RemovedCoalesced(s, s', k, n, lo, hi);
    RemovedBased(s, s', k, n, lo, hi);
    RemovedAddressed(s, s', k, n, lo, hi);
    RemovedLists(s, s', k, n, lo, hi);
    RemovedClean(s, s', k, n, lo, hi);
    RemovedZero(s, s', k, n, lo, hi);
  }

  lemma RemovedZero(s: State, s': State, k: nat, n: nat, lo: nat, hi: nat)
    requires Removal(s, s', k, n, lo, hi)
    ensures |s'.zero| == |s'.b| == |s'.addr| == |s'.o|
  {
    hide Ok, Slide;
  }

  /** A block in use now was so before, elsewhere perhaps. */
  lemma TakenBefore(s: State, s': State, k: nat, n: nat, lo: nat, hi: nat, j: nat) returns (i: nat)
    requires Removal(s, s', k, n, lo, hi) && Taken(s', j)
    ensures i != k && Taken(s, i) && lo <= hi && Slide(i, lo, hi) == j
    ensures s'.b[j].committed == s.b[i].committed
  {
    hide Ok, Pages, Joined;
    Sides(s, s', k, n, lo, hi, k);
    i := if j < lo then j else j + (hi - lo);
    assert j == k && lo == k + 1 ==> Joined(s, s', k, n, lo, hi);
    NotTheSentinel(s, s', k, n, lo, hi, j);
    Sides(s, s', k, n, lo, hi, i);
    SameEntry(s, s', k, n, lo, hi, i, j);
  }

  lemma NotTheSentinel(s: State, s': State, k: nat, n: nat, lo: nat, hi: nat, j: nat)
    requires Gone(s, s', k, n, lo, hi) && n < |s.b| && Joined(s, s', k, n, lo, hi) && Taken(s', j)
    ensures j < k || lo <= j
  {
  }

  lemma SameEntry(s: State, s': State, k: nat, n: nat, lo: nat, hi: nat, i: nat, j: nat)
    requires Gone(s, s', k, n, lo, hi) && n < |s.b| && Joined(s, s', k, n, lo, hi)
    requires i < |s.b| && ((j < k && i == j) || (lo <= j < |s'.b| && i == j + (hi - lo)))
    ensures j < |s'.b| && s'.b[j] == s.b[i].(sizePrevious := s'.b[j].sizePrevious)
  {
  }

  lemma AddressesKept(s: State, s': State, k: nat, n: nat, lo: nat, hi: nat, j: nat)
    requires Gone(s, s', k, n, lo, hi) && j < |s'.addr| && n < |s.b| && Joined(s, s', k, n, lo, hi)
    ensures j < k ==> j < |s.addr| && s'.addr[j] == s.addr[j]
    ensures lo <= j ==> j + (hi - lo) < |s.addr| && s'.addr[j] == s.addr[j + (hi - lo)]
    ensures k <= j < lo ==> s'.addr[j] == 0
  {
    if lo <= j { assert s'.addr[j + (hi - lo) - (hi - lo)] == s.addr[j + (hi - lo)]; }
  }
}
