/** The quick list budget that all small-object allocators of a collector share, as in MMgc/GC.cpp, and a whole
    cycle of finalization, lazy sweeping, allocation and freeing. */
module QuickLists {
  import opened Basics
  import opened SmallBlocks
  import opened GCAlloc

  const NUM_SIZE_CLASSES: nat := 40

  // ----- Sums

  function Sum(s: seq<int>): int {
    if s == [] then 0 else Sum(s[..|s| - 1]) + s[|s| - 1]
  }

  lemma {:induction false} SumUpdate(s: seq<int>, k: nat, v: int)
    requires k < |s|
    ensures Sum(s[k := v]) == Sum(s) - s[k] + v
  {
    var n := |s| - 1;
    if k == n {
      assert s[k := v][..n] == s[..n];
    } else {
      assert s[k := v][..n] == s[..n][k := v];
      SumUpdate(s[..n], k, v);
    }
  }

  lemma {:induction false} SumConcat(s: seq<int>, t: seq<int>)
    ensures Sum(s + t) == Sum(s) + Sum(t)
  {
    if t == [] {
      assert s + t == s;
    } else {
      assert (s + t)[..|s + t| - 1] == s + t[..|t| - 1];
      SumConcat(s, t[..|t| - 1]);
    }
  }

  lemma {:induction false} SumMonotone(s: seq<int>, t: seq<int>)
    requires |s| == |t| && forall i :: 0 <= i < |s| ==> s[i] <= t[i]
    ensures Sum(s) <= Sum(t)
  {
    if s != [] { SumMonotone(s[..|s| - 1], t[..|t| - 1]); }
  }

  lemma {:induction false} SumBound(s: seq<int>, b: int)
    requires forall i :: 0 <= i < |s| ==> s[i] <= b
    ensures Sum(s) <= |s| * b
  {
    if s != [] { SumBound(s[..|s| - 1], b); }
  }

  lemma Multiply(c: int, x: int, y: int)
    requires 0 <= c && x <= y
    ensures c * x <= c * y
  {
  }

  // ----- What a run does to the items that are allocated

  /** What clients ask for. An allocation tells which address the heap would give to a new block, if it is not in
      use, and whether it refuses. */
  datatype Op =
    | AllocOp(alloc: nat, address: nat, refused: bool)
    | FreeOp(alloc: nat, item: Item)

  /** What happened: which item was allocated or freed, if any; whether the allocator took a new block for it, and how
      many of its blocks remain to be swept. */
  datatype Event = Allocated(alloc: nat, item: Item, grew: bool, pending: nat) | Freed(alloc: nat, item: Item) | Nothing

  /** The reference: a set of items, to which allocation adds and from which freeing removes at once. */
  ghost function Step(e: Event, live: iset<(nat, Item)>): iset<(nat, Item)> {
    match e
    case Allocated(k, x, _, _) => live + iset{(k, x)}
    case Freed(k, x) => live - iset{(k, x)}
    case Nothing => live
  }

  ghost function Replay(events: seq<Event>, live: iset<(nat, Item)>): iset<(nat, Item)> {
    if events == [] then live else Step(events[|events| - 1], Replay(events[..|events| - 1], live))
  }

  /** An allocation hands out an item that is not allocated, takes a new block only when none is left to be swept, and
      can only fail if the heap refuses a new block; freeing frees what is allocated. There are n allocators. */
  ghost predicate Fair(op: Op, e: Event, live: iset<(nat, Item)>, n: nat) {
    match op
    case AllocOp(k, _, refused) =>
      if e.Allocated? then e.alloc == k < n && (k, e.item) !in live && (e.grew ==> e.pending == 0)
      else e == Nothing && (refused || n <= k)
    case FreeOp(k, x) => e == if (k, x) in live then Freed(k, x) else Nothing
  }

  ghost predicate Legal(ops: seq<Op>, events: seq<Event>, live: iset<(nat, Item)>, n: nat) {
    |events| == |ops| && forall i :: 0 <= i < |events| ==> Fair(ops[i], events[i], Replay(events[..i], live), n)
  }

  lemma Next(ops: seq<Op>, op: Op, events: seq<Event>, e: Event, live: iset<(nat, Item)>, n: nat)
    requires Legal(ops, events, live, n) && Fair(op, e, Replay(events, live), n)
    ensures Legal(ops + [op], events + [e], live, n) && Replay(events + [e], live) == Step(e, Replay(events, live))
  {
    hide Fair, Step;
    var events', ops' := events + [e], ops + [op];
    assert events'[..|events|] == events;
    forall i | 0 <= i < |events'| ensures Fair(ops'[i], events'[i], Replay(events'[..i], live), n) {
      if i < |events| { assert events'[..i] == events[..i]; }
    }
  }

  /** What an operation on allocator k may do to the length of its quick list, with n items to a block: an allocation
      takes an item off, after filling an empty list, and a free puts one on. */
  function NextLength(op: Op, k: nat, n: nat, q: nat): nat
    requires 0 < n
  {
    if op.alloc != k then q
    else if op.AllocOp? then Max(q, n) - 1
    else q + 1
  }

  /** The longest that the quick list may get in a run. It grows only by frees that allocations do not make up for. */
  function Peak(ops: seq<Op>, k: nat, n: nat, q: nat): nat
    requires 0 < n
  {
    if ops == [] then q else Max(q, Peak(ops[1..], k, n, NextLength(ops[0], k, n, q)))
  }

  lemma {:induction false} PeakMonotone(ops: seq<Op>, k: nat, n: nat, q: nat, q': nat)
    requires 0 < n && q <= q'
    ensures q <= Peak(ops, k, n, q) <= Peak(ops, k, n, q')
  {
    if ops != [] { PeakMonotone(ops[1..], k, n, NextLength(ops[0], k, n, q), NextLength(ops[0], k, n, q')); }
  }

  /** Allocator k allocates and frees in turn. */
  predicate InTurn(ops: seq<Op>, k: nat, mayFree: bool) {
    ops == [] ||
    if ops[0].alloc != k then InTurn(ops[1..], k, mayFree)
    else if ops[0].AllocOp? then InTurn(ops[1..], k, true)
    else mayFree && InTurn(ops[1..], k, false)
  }

  /** However long that goes on, the list never holds more than a block's worth. */
  lemma {:induction false} PeakInTurn(ops: seq<Op>, k: nat, n: nat, q: nat, mayFree: bool)
    requires 0 < n && InTurn(ops, k, mayFree) && q <= if mayFree then n - 1 else n
    ensures Peak(ops, k, n, q) <= n
  {
    if ops != [] {
      PeakInTurn(ops[1..], k, n, NextLength(ops[0], k, n, q),
                 if ops[0].alloc != k then mayFree else ops[0].AllocOp?);
    }
  }

  // ----- What a run may need of the budget

  predicate Shrinks(l: QuickList, l': QuickList) {
    l' == l.(length := l'.length) && l'.length < Max(l.length, l.itemsPerBlock)
  }

  /** The list may be longer by one, and more budget is obtained only if it was as long as the budget allowed. */
  predicate MayGrow(l: QuickList, l': QuickList) {
    && l' == l.(length := l'.length, obtained := l'.obtained) && l'.length <= l.length + 1
    && (l'.obtained == l.obtained || l'.obtained <= l'.length + l.itemsPerBlock)
  }

  /** What a step does to the quick list of allocator k. */
  predicate Moderate(op: Op, k: nat, l: QuickList, l': QuickList) {
    if op.alloc != k then l' == l else if op.AllocOp? then Shrinks(l, l') else MayGrow(l, l')
  }

  /** What allocator k may have obtained at most at the end of a run, in bytes: a block's worth if it is a victim, and
      otherwise what it has, or a block's worth more than its quick list may hold. */
  function Demand(l: QuickList, victim: bool, ops: seq<Op>, k: nat): int {
    l.itemSize *
      if victim || l.itemsPerBlock == 0 then l.itemsPerBlock
      else Max(l.obtained, Peak(ops, k, l.itemsPerBlock, l.length) + l.itemsPerBlock)
  }

  /** The same for all allocators together, the first n of which are victims. */
  function Demands(lists: seq<QuickList>, n: nat, ops: seq<Op>): int {
    if lists == [] then 0
    else Demands(lists[..|lists| - 1], n, ops) + Demand(lists[|lists| - 1], |lists| - 1 < n, ops, |lists| - 1)
  }

  lemma {:induction false} DemandsCover(s: seq<int>, lists: seq<QuickList>, n: nat, ops: seq<Op>)
    requires |s| == |lists| && forall k :: 0 <= k < |s| ==> s[k] <= Demand(lists[k], k < n, ops, k)
    ensures Sum(s) <= Demands(lists, n, ops)
  {
    hide Demand;
    if s != [] { DemandsCover(s[..|s| - 1], lists[..|s| - 1], n, ops); }
  }

  /** A step takes no more than it was said to. */
  lemma DemandFalls(op: Op, ops: seq<Op>, k: nat, victim: bool, l: QuickList, l': QuickList)
    requires if victim then l' == l.(length := l'.length, obtained := l'.obtained) else Moderate(op, k, l, l')
    ensures Demand(l', victim, ops, k) <= Demand(l, victim, [op] + ops, k)
  {
    if !victim && l.itemsPerBlock > 0 {
      var n := l.itemsPerBlock;
      assert ([op] + ops)[1..] == ops;
      PeakMonotone(ops, k, n, l'.length, NextLength(op, k, n, l.length));
      Multiply(l.itemSize, Max(l'.obtained, Peak(ops, k, n, l'.length) + n),
               Max(l.obtained, Peak([op] + ops, k, n, l.length) + n));
    }
  }

  lemma {:induction false} DemandsFall(op: Op, ops: seq<Op>, n: nat, lists: seq<QuickList>, lists': seq<QuickList>)
    requires |lists'| == |lists|
    requires forall k :: 0 <= k < |lists| ==>
      if k < n then lists'[k] == lists[k].(length := lists'[k].length, obtained := lists'[k].obtained)
      else Moderate(op, k, lists[k], lists'[k])
    ensures Demands(lists', n, ops) <= Demands(lists, n, [op] + ops)
  {
    hide Demand, Moderate;
    if lists != [] {
      var m := |lists| - 1;
      DemandsFall(op, ops, n, lists[..m], lists'[..m]);
      DemandFalls(op, ops, m, m < n, lists[m], lists'[m]);
    }
  }

  // ----- Budgets

  /** What may remain at most of a budget: what is left when the first n allocators have no more than the least. */
  function Spare(total: int, least: seq<int>, obtained: seq<int>, n: nat): int
    requires n <= |least| == |obtained|
  {
    total - Sum(least[..n]) - Sum(obtained[n..])
  }

  lemma NoMoreThanSpare(total: int, least: seq<int>, obtained: seq<int>, n: nat)
    requires n <= |least| == |obtained| && forall k :: 0 <= k < n ==> least[k] <= obtained[k]
    ensures total - Sum(obtained) <= Spare(total, least, obtained, n)
    ensures (forall k :: 0 <= k < n ==> least[k] == obtained[k]) ==>
              total - Sum(obtained) == Spare(total, least, obtained, n)
  {
    assert obtained == obtained[..n] + obtained[n..];
    SumConcat(obtained[..n], obtained[n..]);
    SumMonotone(least[..n], obtained[..n]);
    if forall k :: 0 <= k < n ==> least[k] == obtained[k] { assert least[..n] == obtained[..n]; }
  }

  lemma SpareKept(total: int, least: seq<int>, obtained: seq<int>, n: nat, k: nat, v: int)
    requires k < n <= |least| == |obtained|
    ensures Spare(total, least, obtained[k := v], n) == Spare(total, least, obtained, n)
  {
    assert obtained[k := v][n..] == obtained[n..];
  }

  /** What an allocator is made for. */
  datatype SizeClass = SizeClass(itemSize: nat, itemsPerBlock: nat, finalized: bool)

  predicate FitsBlock(c: SizeClass) {
    0 < c.itemSize && 0 < c.itemsPerBlock && c.itemSize * c.itemsPerBlock <= BLOCK_SIZE
  }

  class GC {
    const allocs: seq<GCAlloc>         // those of the five pools, in the order of the victim iterator, then others
    const numVictims: nat              // the others, the bibop allocators, are never victims
    const total: int
    var remainingQuickListBudget: int
    var victimIterator: nat
    ghost var obtained: seq<int>       // what each allocator has obtained, in bytes

    /** The allocators of all size classes of the five pools, and the two bibop allocators, one after another obtain a
        block's worth of the budget. There is enough for all, so that no quick list needs to be flushed. */
    constructor (classes: seq<SizeClass>)
      requires |classes| == 5 * NUM_SIZE_CLASSES + 2 && forall k :: 0 <= k < |classes| ==> FitsBlock(classes[k])
      ensures total == 3 * NUM_SIZE_CLASSES * 4 * BLOCK_SIZE && numVictims == 5 * NUM_SIZE_CLASSES
      ensures |allocs| == |classes|
      ensures forall k :: 0 <= k < |allocs| ==> fresh(allocs[k]) && OfClass(allocs[k], classes[k])
      ensures Valid() && AllTidy() && LiveItems() == iset{}
      ensures obtained == Least() && ToSpare() >= 278 * BLOCK_SIZE
      ensures forall k :: 0 <= k < |allocs| ==> allocs[k].sweepList == []
    {
      hide NewAlloc, OfClass, FitsBlock, Proper, Funded, AllTidy, LiveItems, Sum, Spare, Least;
      var made, remaining, bytes := MakeAllocs(classes);
      allocs, remainingQuickListBudget := made, remaining;
      numVictims, total := 5 * NUM_SIZE_CLASSES, 3 * NUM_SIZE_CLASSES * 4 * BLOCK_SIZE;
      victimIterator, obtained := 0, bytes;
      new;
      Established();
      InitiallyToSpare();
    }

    lemma Established()
      requires |obtained| == |allocs| && victimIterator < numVictims <= |allocs|
      requires forall i, j :: 0 <= i < j < |allocs| ==> allocs[i] != allocs[j]
      requires forall k :: 0 <= k < |allocs| ==> NewAlloc(allocs[k], obtained[k])
      ensures Proper() && Funded() && AllTidy() && LiveItems() == iset{} && obtained == Least()
      ensures forall k :: 0 <= k < |allocs| ==> allocs[k].sweepList == []
    {
      hide GCAlloc.Valid, GCAlloc.Tidy, GCAlloc.Alive, Ok, Live;
      forall k | 0 <= k < |allocs| ensures obtained[k] == Least()[k] { assert NewAlloc(allocs[k], obtained[k]); }
    }

    static method MakeAllocs(classes: seq<SizeClass>)
      returns (r: seq<GCAlloc>, remaining: int, ghost bytes: seq<int>)
      requires |classes| <= 5 * NUM_SIZE_CLASSES + 2 && forall k :: 0 <= k < |classes| ==> FitsBlock(classes[k])
      ensures |bytes| == |r| == |classes| && remaining + Sum(bytes) == 3 * NUM_SIZE_CLASSES * 4 * BLOCK_SIZE
      ensures remaining > 0
      ensures forall k :: 0 <= k < |r| ==> fresh(r[k]) && NewAlloc(r[k], bytes[k]) && OfClass(r[k], classes[k])
      ensures forall i, j :: 0 <= i < j < |r| ==> r[i] != r[j]
    {
      hide NewAlloc, OfClass;
      r, remaining, bytes := [], 3 * NUM_SIZE_CLASSES * 4 * BLOCK_SIZE, [];
      while |r| < |classes|
        invariant |bytes| == |r| <= |classes| && remaining + Sum(bytes) == 3 * NUM_SIZE_CLASSES * 4 * BLOCK_SIZE
        invariant remaining >= (12 * NUM_SIZE_CLASSES - |r|) * BLOCK_SIZE
        invariant forall k :: 0 <= k < |r| ==> fresh(r[k]) && NewAlloc(r[k], bytes[k]) && OfClass(r[k], classes[k])
        invariant forall i, j :: 0 <= i < j < |r| ==> r[i] != r[j]
        decreases |classes| - |r|
      {
        var c := classes[|r|];
        var a := MakeAlloc(c);
        var nbytes := c.itemSize * c.itemsPerBlock;
        assert remaining > nbytes;   // ObtainQuickListBudget need not look for a victim
        remaining := remaining - nbytes;
        assert (bytes + [nbytes])[..|bytes|] == bytes;
        r, bytes := r + [a], bytes + [nbytes];
      }
    }

    static method MakeAlloc(c: SizeClass) returns (a: GCAlloc)
      requires FitsBlock(c)
      ensures fresh(a) && NewAlloc(a, c.itemSize * c.itemsPerBlock) && OfClass(a, c)
    {
      hide Ok, GCAlloc.Valid;
      a := new GCAlloc(c.itemSize, c.itemsPerBlock, c.finalized);
    }

    static ghost predicate NewAlloc(a: GCAlloc, bytes: int)
      reads a
    {
      AllocOk(a, bytes) && bytes == a.m_itemSize * a.m_itemsPerBlock && a.m_qBudget >= 0 && a.Tidy()
          && a.sweepList == [] && forall x :: !a.Alive(x)
    }

    static predicate OfClass(a: GCAlloc, c: SizeClass) {
      a.m_itemSize == c.itemSize && a.m_itemsPerBlock == c.itemsPerBlock && a.containsFinalizedObjects == c.finalized
    }

    /** What each allocator always keeps: as much as a block is worth. */
    function Least(): (r: seq<int>)
      ensures |r| == |allocs|
      ensures forall k :: 0 <= k < |allocs| ==> r[k] == allocs[k].m_itemSize * allocs[k].m_itemsPerBlock
    {
      seq(|allocs|, k requires 0 <= k < |allocs| => allocs[k].m_itemSize * allocs[k].m_itemsPerBlock)
    }

    /** The allocator is in a proper state, and has obtained what the ledger says. */
    static ghost predicate AllocOk(a: GCAlloc, obtained: int)
      reads a
    {
      && a.Valid() && 0 < a.m_itemSize && a.m_itemSize * a.m_itemsPerBlock <= BLOCK_SIZE
      && obtained == a.m_itemSize * a.m_qBudgetObtained
    }

    ghost predicate Proper()
      reads this, allocs
    {
      && numVictims <= |allocs| && victimIterator < numVictims && |obtained| == |allocs|
      && (forall i, j :: 0 <= i < j < |allocs| ==> allocs[i] != allocs[j])
      && forall k :: 0 <= k < |allocs| ==> AllocOk(allocs[k], obtained[k])
    }

    /** Nothing of the budget is lost: it remains, or allocators have it, or it is about to be handed out. */
    ghost predicate Balanced(pending: int)
      reads this
    {
      remainingQuickListBudget + Sum(obtained) + pending == total
    }

    ghost predicate Valid()
      reads this, allocs
    {
      Proper() && Balanced(0) && 0 < remainingQuickListBudget && Funded()
    }

    /** No quick list is longer than its budget. */
    ghost predicate Funded()
      reads allocs
    {
      forall k :: 0 <= k < |allocs| ==> allocs[k].m_qBudget >= 0
    }

    ghost function ToSpare(): int
      requires numVictims <= |allocs| == |obtained|
      reads this
    {
      Spare(total, Least(), obtained, numVictims)
    }

    /** However the victims are flushed, no more than is to spare can remain. So if a request is not below it, the
        loop of ObtainQuickListBudget goes on for ever. */
    lemma NeverEnough(nbytes: int)
      requires Proper() && Balanced(0) && ToSpare() <= nbytes
      ensures remainingQuickListBudget <= nbytes
    {
      hide GCAlloc.Valid;
      forall k | 0 <= k < numVictims ensures Least()[k] <= obtained[k] { Holds(allocs[k], obtained[k]); }
      NoMoreThanSpare(total, Least(), obtained, numVictims);
    }

    static lemma Holds(a: GCAlloc, obtained: int)
      requires AllocOk(a, obtained)
      ensures a.m_itemSize * a.m_itemsPerBlock <= obtained
      ensures a.m_qBudget >= 0 ==> a.m_itemSize * |a.m_qList| <= obtained
    {
      hide Ok;
      Multiply(a.m_itemSize, a.m_itemsPerBlock, a.m_qBudgetObtained);
      if a.m_qBudget >= 0 { Multiply(a.m_itemSize, |a.m_qList|, a.m_qBudgetObtained); }
    }

    /** When all victims are at their least, what remains is all there is to spare. */
    lemma AllAtLeast()
      requires Proper() && Balanced(0) && forall k :: 0 <= k < numVictims ==> obtained[k] == Least()[k]
      ensures remainingQuickListBudget == ToSpare()
    {
      NoMoreThanSpare(total, Least(), obtained, numVictims);
    }

    /** The budget bounds the bytes on all quick lists together, at any time. */
    lemma Bounded(bytes: seq<int>)
      requires Valid() && |bytes| == |allocs|
      requires forall k :: 0 <= k < |allocs| ==> bytes[k] == allocs[k].m_itemSize * |allocs[k].m_qList|
      ensures Sum(bytes) < total
    {
      hide GCAlloc.Valid;
      forall k | 0 <= k < |allocs| ensures bytes[k] <= obtained[k] { Holds(allocs[k], obtained[k]); }
      SumMonotone(bytes, obtained);
    }

    // ----- Obtaining budget

    /** The next victim flushes its quick list and relinquishes what it can. */
    method CoalesceVictim()
      requires Proper() && Balanced(0)
      modifies this, allocs[victimIterator]
      ensures Proper() && Balanced(0) && ToSpare() == old(ToSpare())
      ensures victimIterator == (old(victimIterator) + 1) % numVictims
      ensures obtained == old(obtained)[old(victimIterator) := Least()[old(victimIterator)]]
      ensures remainingQuickListBudget ==
                old(remainingQuickListBudget) + old(obtained[victimIterator]) - obtained[old(victimIterator)]
      ensures var v := allocs[old(victimIterator)]; SameLive(old(v.S()), v.S(), v.m_itemsPerBlock) && v.m_qBudget >= 0
      ensures var v := allocs[old(victimIterator)]; old(v.Tidy()) ==> v.Tidy()
    {
      hide Ok, Live, SameLive, Sum, GCAlloc.Valid, GCAlloc.Tidy, Spare;
      var v := allocs[victimIterator];
      BytesRelinquished(v.m_itemSize, v.m_qBudgetObtained, v.m_itemsPerBlock);
      var relinquished := v.CoalesceQuickList();
      SumUpdate(obtained, victimIterator, Least()[victimIterator]);
      SpareKept(total, Least(), obtained, numVictims, victimIterator, Least()[victimIterator]);
      obtained := obtained[victimIterator := Least()[victimIterator]];
      remainingQuickListBudget := remainingQuickListBudget + relinquished;
      victimIterator := (victimIterator + 1) % numVictims;
    }

    static lemma BytesRelinquished(size: int, obtained: int, least: int)
      ensures size * obtained - size * (obtained - least) == size * least
    {
    }

    /** Victim k is among the first ones of a turn around all n of them. */
    static ghost predicate InTurn(k: nat, n: nat, first: nat, turns: nat) {
      k < n && (first <= k < first + turns || k + n < first + turns)
    }

    /** The first victims of a turn are at their least, and all other allocators have what they had. */
    static ghost predicate Flushed(before: seq<int>, obtained: seq<int>, least: seq<int>, n: nat, first: nat,
                                   turns: nat)
    {
      && |before| == |obtained| == |least| && n <= |least| && first < n
      && forall k: nat :: k < |least| ==> obtained[k] == if InTurn(k, n, first, turns) then least[k] else before[k]
    }

    /** ObtainQuickListBudget: victims are flushed in turn until enough remains, and no more of them: without what the
        last one gave back there was not enough. If there is enough to spare, one turn around all of them suffices. */
    method ObtainQuickListBudget(nbytes: nat) returns (ghost turns: nat)
      requires Proper() && Balanced(0) && nbytes < ToSpare()
      modifies this, allocs
      ensures turns <= numVictims && victimIterator == Turn(old(victimIterator), turns, numVictims)
      ensures Flushed(old(obtained), obtained, Least(), numVictims, old(victimIterator), turns)
      ensures turns == 0 <==> old(remainingQuickListBudget) > nbytes
      ensures turns > 0 ==>
                LastNeeded(old(obtained), Least(), Turn(old(victimIterator), turns - 1, numVictims),
                           remainingQuickListBudget, 0)
      ensures forall k: nat :: k < |allocs| && !InTurn(k, numVictims, old(victimIterator), turns) ==>
                allocs[k].List() == old(allocs[k].List()) && allocs[k].sweepList == old(allocs[k].sweepList)
      ensures forall k :: 0 <= k < |allocs| ==>
                allocs[k].m_qBudget >= 0 || allocs[k].m_qBudget == old(allocs[k].m_qBudget)
      ensures forall k :: 0 <= k < |allocs| ==> old(allocs[k].Tidy()) ==> allocs[k].Tidy()
      ensures forall k :: 0 <= k < |allocs| ==> SameLive(old(allocs[k].S()), allocs[k].S(), allocs[k].m_itemsPerBlock)
      ensures Balanced(nbytes) && 0 < remainingQuickListBudget && Proper() && ToSpare() == old(ToSpare())
    {
      hide Ok, Live, SameLive, GCAlloc.Valid, GCAlloc.Tidy, ToSpare, AllocOk, InTurn, Ledger, Balanced, Flushed, Turn,
           LastNeeded;
      ghost var first := victimIterator;
      turns := 0;
      Start(first, nbytes);
      while remainingQuickListBudget <= nbytes
        invariant Proper() && Balanced(0) && ToSpare() == old(ToSpare())
        invariant Ledger(old(obtained), old(remainingQuickListBudget), first, turns, nbytes) && turns <= numVictims
        invariant forall k: nat :: k < |allocs| && !InTurn(k, numVictims, first, turns) ==>
                    allocs[k].List() == old(allocs[k].List()) && allocs[k].sweepList == old(allocs[k].sweepList)
        invariant forall k :: 0 <= k < |allocs| ==>
                  allocs[k].m_qBudget >= 0 || allocs[k].m_qBudget == old(allocs[k].m_qBudget)
        invariant forall k :: 0 <= k < |allocs| ==> old(allocs[k].Tidy()) ==> allocs[k].Tidy()
        invariant forall k :: 0 <= k < |allocs| ==>
                  SameLive(old(allocs[k].S()), allocs[k].S(), allocs[k].m_itemsPerBlock)
        decreases numVictims - turns
      {
        ghost var v := allocs[victimIterator];
        ghost var before := v.S();
        FlushNext(old(obtained), old(remainingQuickListBudget), first, turns, nbytes);
        GCAlloc.LiveBoth(old(v.S()), before, v.S(), v.m_itemsPerBlock);
        turns := turns + 1;
      }
      LedgerSays(old(obtained), old(remainingQuickListBudget), first, turns, nbytes);
      Deduct(nbytes);
    }

    method Deduct(nbytes: nat)
      requires Proper() && Balanced(0)
      modifies this`remainingQuickListBudget
      ensures Proper() && Balanced(nbytes) && ToSpare() == old(ToSpare())
      ensures remainingQuickListBudget == old(remainingQuickListBudget) - nbytes
    {
      hide AllocOk, Sum, Spare;
      remainingQuickListBudget := remainingQuickListBudget - nbytes;
    }

    /** The course of the loop so far: which victims have been flushed, and what remains. */
    static ghost predicate Course(before: seq<int>, obtained: seq<int>, least: seq<int>, n: nat, first: nat, turns: nat,
                                  victim: nat, remained: int, remaining: int, nbytes: nat)
    {
      && first < n && turns <= n && Flushed(before, obtained, least, n, first, turns) && victim == Turn(first, turns, n)
      && if turns == 0 then remaining == remained
         else remained <= nbytes && LastNeeded(before, least, Turn(first, turns - 1, n), remaining, nbytes)
    }

    /** What remains is no more than asked for but for what this victim gave back. */
    static ghost predicate LastNeeded(before: seq<int>, least: seq<int>, k: nat, remaining: int, nbytes: nat) {
      k < |before| == |least| && remaining - (before[k] - least[k]) <= nbytes
    }

    static lemma NextCourse(before: seq<int>, obtained: seq<int>, least: seq<int>, n: nat, first: nat, turns: nat,
                            victim: nat, remained: int, remaining: int, nbytes: nat)
      requires Course(before, obtained, least, n, first, turns, victim, remained, remaining, nbytes)
      requires turns < n && remaining <= nbytes
      ensures victim < n && InTurn(victim, n, first, turns + 1)
      ensures Course(before, obtained[victim := least[victim]], least, n, first, turns + 1, (victim + 1) % n, remained,
                     remaining + obtained[victim] - least[victim], nbytes)
      ensures forall j: nat :: InTurn(j, n, first, turns) ==> InTurn(j, n, first, turns + 1)
    {
      hide Flushed, InTurn, Turn;
      NextTurn(first, turns, n);
      OneFlushed(before, obtained, least, n, first, turns, victim);
    }

    ghost predicate Ledger(before: seq<int>, remained: int, first: nat, turns: nat, nbytes: nat)
      reads this
    {
      Course(before, obtained, Least(), numVictims, first, turns, victimIterator, remained, remainingQuickListBudget,
             nbytes)
    }

    lemma LedgerSays(before: seq<int>, remained: int, first: nat, turns: nat, nbytes: nat)
      requires Proper() && Balanced(0) && Ledger(before, remained, first, turns, nbytes)
      requires remainingQuickListBudget > nbytes
      ensures turns <= numVictims && victimIterator == Turn(first, turns, numVictims)
      ensures Flushed(before, obtained, Least(), numVictims, first, turns)
      ensures turns == 0 <==> remained > nbytes
      ensures turns > 0 ==>
                LastNeeded(before, Least(), Turn(first, turns - 1, numVictims), remainingQuickListBudget - nbytes, 0)
    {
      hide Flushed, Turn, AllocOk, Sum;
    }

    /** The body of the loop. */
    method FlushNext(ghost before: seq<int>, ghost remained: int, ghost first: nat, ghost turns: nat, nbytes: nat)
      requires Proper() && Balanced(0) && nbytes < ToSpare() && remainingQuickListBudget <= nbytes
      requires Ledger(before, remained, first, turns, nbytes)
      modifies this, allocs[victimIterator]
      ensures Proper() && Balanced(0) && ToSpare() == old(ToSpare()) && turns < numVictims
      ensures Ledger(before, remained, first, turns + 1, nbytes)
      ensures InTurn(old(victimIterator), numVictims, first, turns + 1)
      ensures forall j: nat :: InTurn(j, numVictims, first, turns) ==> InTurn(j, numVictims, first, turns + 1)
      ensures var v := allocs[old(victimIterator)]; SameLive(old(v.S()), v.S(), v.m_itemsPerBlock) && v.m_qBudget >= 0
      ensures var v := allocs[old(victimIterator)]; old(v.Tidy()) ==> v.Tidy()
    {
      hide Ok, Live, SameLive, Sum, GCAlloc.Valid, GCAlloc.Tidy, Spare, AllocOk, Course, InTurn, Balanced;
      Enough(nbytes, before, remained, first, turns);
      NextCourse(before, obtained, Least(), numVictims, first, turns, victimIterator, remained,
                 remainingQuickListBudget, nbytes);
      CoalesceVictim();
    }

    static ghost function Turn(first: nat, turns: nat, n: nat): nat
      requires first < n
    {
      if first + turns < n then first + turns else if first + turns < 2 * n then first + turns - n else 0
    }

    static lemma NextTurn(first: nat, turns: nat, n: nat)
      requires first < n && turns < n
      ensures (Turn(first, turns, n) + 1) % n == Turn(first, turns + 1, n) && Turn(first, turns, n) < n
    {
    }

    lemma Start(first: nat, nbytes: nat)
      requires Proper() && first == victimIterator
      ensures Ledger(obtained, remainingQuickListBudget, first, 0, nbytes)
      ensures forall k :: 0 <= k < |allocs| ==> SameLive(allocs[k].S(), allocs[k].S(), allocs[k].m_itemsPerBlock)
    {
    }

    /** While more is wanted, the turn is not complete. */
    lemma Enough(nbytes: nat, before: seq<int>, remained: int, first: nat, turns: nat)
      requires Proper() && Balanced(0) && nbytes < ToSpare() && remainingQuickListBudget <= nbytes
      requires Ledger(before, remained, first, turns, nbytes)
      ensures turns < numVictims
    {
      hide AllocOk, Spare, Sum;
      if turns == numVictims { AllAtLeast(); }
    }

    static lemma OneFlushed(before: seq<int>, obtained: seq<int>, least: seq<int>, n: nat, first: nat, turns: nat,
                            k: nat)
      requires Flushed(before, obtained, least, n, first, turns) && turns < n && k == Turn(first, turns, n)
      ensures k < n <= |before| == |least| && obtained[k] == before[k] && InTurn(k, n, first, turns + 1)
      ensures Flushed(before, obtained[k := least[k]], least, n, first, turns + 1)
      ensures forall j: nat :: InTurn(j, n, first, turns + 1) <==> InTurn(j, n, first, turns) || j == k
    {
    }

    // ----- Allocation and freeing

    method Alloc(k: nat, address: nat, refused: bool) returns (item: Option<Item>)
      requires Valid() && k < |allocs| && address !in allocs[k].blocks
      modifies allocs[k]
      ensures Valid() && obtained == old(obtained)
      ensures item.Some? ==> !old(allocs[k].Alive(item.value)) && allocs[k].Alive(item.value)
      ensures item.Some? ==> SameLiveBut(old(allocs[k].S()), allocs[k].S(), allocs[k].m_itemsPerBlock, item.value)
      ensures item.None? ==> refused && SameLive(old(allocs[k].S()), allocs[k].S(), allocs[k].m_itemsPerBlock)
      ensures Shrinks(old(allocs[k].List()), allocs[k].List())
      ensures old(allocs[k].sweepList) == [] ==> allocs[k].sweepList == []
      ensures allocs[k].blocks.Keys <= old(allocs[k].blocks.Keys) + {address}
      ensures address in allocs[k].blocks ==> allocs[k].sweepList == []
      ensures old(allocs[k].Tidy()) ==> allocs[k].Tidy()
    {
      hide Ok, Live, SameLive, SameLiveBut, Sum, GCAlloc.Valid, GCAlloc.Tidy;
      item := allocs[k].Alloc(address, refused);
    }

    /** The bytes in a block's worth of items. */
    function Worth(k: nat): int
      requires k < |allocs|
    {
      allocs[k].m_itemSize * allocs[k].m_itemsPerBlock
    }

    /** Freeing the item needs more budget for the quick list than there is to spare. */
    ghost predicate Stalls(k: nat, item: Item, marking: bool)
      requires k < |allocs| && numVictims <= |allocs| == |obtained|
      reads this, allocs
    {
      allocs[k].Exhausts(item, marking) && ToSpare() <= Worth(k)
    }

    /** Free, which may need budget for a longer quick list, and does not end if there is not enough to spare. */
    method Free(k: nat, item: Item, marking: bool) returns (freed: bool)
      requires Valid() && k < |allocs| && allocs[k].Alive(item) && !Stalls(k, item, marking)
      modifies this, allocs
      ensures Valid()
      ensures freed <==> !(marking && old(allocs[k].blocks[item.blk].bits[item.idx].queued))
      ensures freed ==> !allocs[k].Alive(item)
      ensures forall j :: 0 <= j < |allocs| ==>
                if j == k then SameLiveBut(old(allocs[j].S()), allocs[j].S(), allocs[j].m_itemsPerBlock, item)
                else SameLive(old(allocs[j].S()), allocs[j].S(), allocs[j].m_itemsPerBlock)
      ensures !freed ==> allocs[k].Alive(item)
      ensures forall j :: numVictims <= j < |allocs| && j != k ==> allocs[j].List() == old(allocs[j].List())
      ensures k >= numVictims ==> MayGrow(old(allocs[k].List()), allocs[k].List())
      ensures k >= numVictims && freed && !old(allocs[k].blocks[item.blk].needsSweeping) ==>
                |allocs[k].m_qList| == old(|allocs[k].m_qList|) + 1
      ensures ToSpare() ==
                old(ToSpare() - if k >= numVictims && allocs[k].Exhausts(item, marking) then Worth(k) else 0)
      ensures k >= numVictims && old(allocs[k].sweepList) == [] ==> allocs[k].sweepList == []
      ensures k >= numVictims ==>
                allocs[k].m_qBudgetObtained == old(allocs[k].m_qBudgetObtained)
                + if old(allocs[k].Exhausts(item, marking)) then allocs[k].m_itemsPerBlock else 0
      ensures forall j :: 0 <= j < |allocs| ==> old(allocs[j].Tidy()) ==> allocs[j].Tidy()
    {
      hide Ok, Live, SameLive, SameLiveBut, Sum, GCAlloc.Valid, GCAlloc.Tidy, AllocOk, Spare;
      LiveAll();
      var exhausted;
      freed, exhausted := FreeItem(k, item, marking);
      ghost var before := allocs[k].S();
      if exhausted {
        WorthOf(k);
        QuickListBudgetExhausted(k);
        GCAlloc.LiveButBoth(old(allocs[k].S()), before, allocs[k].S(), allocs[k].m_itemsPerBlock, item);
      }
      if !freed { GCAlloc.ButNothing(before, allocs[k].m_itemsPerBlock, item); }
    }

    lemma LiveAll()
      ensures forall j :: 0 <= j < |allocs| ==> SameLive(allocs[j].S(), allocs[j].S(), allocs[j].m_itemsPerBlock)
    {
    }

    lemma WorthOf(k: nat)
      requires Proper() && k < |allocs|
      ensures 0 <= allocs[k].m_itemSize * allocs[k].m_itemsPerBlock
    {
    }

    /** The part of Free that concerns the allocator alone. */
    method FreeItem(k: nat, item: Item, marking: bool) returns (freed: bool, exhausted: bool)
      requires Valid() && k < |allocs| && allocs[k].Alive(item)
      modifies allocs[k]
      ensures Proper() && Balanced(0) && obtained == old(obtained) && 0 < remainingQuickListBudget
      ensures forall j :: 0 <= j < |allocs| && (j != k || !exhausted) ==> allocs[j].m_qBudget >= 0
      ensures allocs[k].m_qBudget >= -1
      ensures |allocs[k].m_qList| <= old(|allocs[k].m_qList|) + 1
      ensures allocs[k].m_qBudgetObtained == old(allocs[k].m_qBudgetObtained)
      ensures exhausted ==> allocs[k].m_qBudgetObtained <= |allocs[k].m_qList|
      ensures exhausted <==> old(allocs[k].Exhausts(item, marking))
      ensures freed && !old(allocs[k].blocks[item.blk].needsSweeping) ==>
                |allocs[k].m_qList| == old(|allocs[k].m_qList|) + 1
      ensures old(allocs[k].sweepList) == [] ==> allocs[k].sweepList == []
      ensures freed <==> !(marking && old(allocs[k].blocks[item.blk].bits[item.idx].queued))
      ensures freed ==>
                !allocs[k].Alive(item)
                    && SameLiveBut(old(allocs[k].S()), allocs[k].S(), allocs[k].m_itemsPerBlock, item)
      ensures !freed ==> allocs[k].S() == old(allocs[k].S()) && !exhausted
      ensures old(allocs[k].Tidy()) ==> allocs[k].Tidy()
    {
      hide Ok, SameLive, SameLiveBut, Sum, GCAlloc.Valid, GCAlloc.Tidy;
      freed, exhausted := allocs[k].Free(item, marking);
    }

    method QuickListBudgetExhausted(k: nat)
      requires Proper() && Balanced(0) && k < |allocs| && allocs[k].m_itemSize * allocs[k].m_itemsPerBlock < ToSpare()
      requires forall j :: 0 <= j < |allocs| ==> allocs[j].m_qBudget >= if j == k then -1 else 0
      modifies this, allocs
      ensures Valid()
      ensures forall j :: 0 <= j < |allocs| ==> SameLive(old(allocs[j].S()), allocs[j].S(), allocs[j].m_itemsPerBlock)
      ensures ToSpare() ==
                old(ToSpare()) - if k < numVictims then 0 else allocs[k].m_itemSize * allocs[k].m_itemsPerBlock
      ensures forall j :: numVictims <= j < |allocs| && j != k ==> allocs[j].List() == old(allocs[j].List())
      ensures k >= numVictims ==>
                var l := old(allocs[k].List()); allocs[k].List() == l.(obtained := l.obtained + l.itemsPerBlock)
      ensures k >= numVictims ==> allocs[k].sweepList == old(allocs[k].sweepList)
      ensures forall j :: 0 <= j < |allocs| ==> old(allocs[j].Tidy()) ==> allocs[j].Tidy()
    {
      hide Ok, Live, SameLive, Sum, GCAlloc.Valid, GCAlloc.Tidy, Spare, AllocOk;
      WorthOf(k);
      ghost var _ := ObtainQuickListBudget(allocs[k].m_itemSize * allocs[k].m_itemsPerBlock);
      Grant(k);
    }

    /** A block's worth of budget goes from the collector to the allocator. */
    method Grant(k: nat)
      requires k < |allocs| && Proper() && Balanced(allocs[k].m_itemSize * allocs[k].m_itemsPerBlock)
      modifies this`obtained, allocs[k]
      ensures allocs[k].S() == old(allocs[k].S()) && (old(allocs[k].Tidy()) ==> allocs[k].Tidy())
      ensures Proper() && Balanced(0) && allocs[k].m_qBudget == old(allocs[k].m_qBudget) + allocs[k].m_itemsPerBlock
      ensures allocs[k].m_qBudgetObtained == old(allocs[k].m_qBudgetObtained) + allocs[k].m_itemsPerBlock
      ensures ToSpare() ==
                old(ToSpare()) - if k < numVictims then 0 else allocs[k].m_itemSize * allocs[k].m_itemsPerBlock
      ensures 0 < allocs[k].m_itemsPerBlock
    {
      hide Ok, Sum, GCAlloc.Valid, Spare;
      var a := allocs[k];
      BlockWorth(a, obtained[k]);
      Granted(total, Least(), obtained, numVictims, k, a.m_itemSize * a.m_itemsPerBlock);
      BytesGranted(a.m_itemSize, a.m_qBudgetObtained, a.m_itemsPerBlock);
      a.GrantBudget();
      obtained := obtained[k := obtained[k] + a.m_itemSize * a.m_itemsPerBlock];
    }

    static lemma BlockWorth(a: GCAlloc, obtained: int)
      requires AllocOk(a, obtained)
      ensures 0 <= a.m_itemSize * a.m_itemsPerBlock && a.m_itemsPerBlock > 0
    {
    }

    static lemma BytesGranted(size: int, obtained: int, more: int)
      ensures size * (obtained + more) == size * obtained + size * more
    {
    }

    static lemma Granted(total: int, least: seq<int>, obtained: seq<int>, n: nat, k: nat, more: int)
      requires n <= |least| == |obtained| && k < |obtained|
      ensures Sum(obtained[k := obtained[k] + more]) == Sum(obtained) + more
      ensures Spare(total, least, obtained[k := obtained[k] + more], n) ==
                Spare(total, least, obtained, n) - if k < n then 0 else more
    {
      SumUpdate(obtained, k, obtained[k] + more);
      if k < n {
        SpareKept(total, least, obtained, n, k, obtained[k] + more);
      } else {
        assert obtained[k := obtained[k] + more][n..] == obtained[n..][k - n := obtained[k] + more];
        SumUpdate(obtained[n..], k - n, obtained[k] + more);
      }
    }

    // ----- Whole runs

    ghost function LiveItems(): iset<(nat, Item)>
      reads this, allocs
    {
      iset k: nat, x: Item | k < |allocs| && allocs[k].Alive(x) :: (k, x)
    }

    ghost predicate AllTidy()
      reads allocs
    {
      forall k :: 0 <= k < |allocs| ==> allocs[k].Tidy()
    }

    /** The quick lists of the first m allocators. */
    ghost function Lists(m: nat): (r: seq<QuickList>)
      requires m <= |allocs|
      reads allocs
      ensures |r| == m && forall k :: 0 <= k < m ==> r[k] == allocs[k].List()
    {
      if m == 0 then [] else Lists(m - 1) + [allocs[m - 1].List()]
    }

    /** Whatever a run needs of the budget leaves more than a block's worth to spare. */
    ghost predicate Suffices(ops: seq<Op>)
      reads this, allocs
    {
      BLOCK_SIZE < total - Demands(Lists(|allocs|), numVictims, ops)
    }

    /** No more can be spared now than will be. */
    lemma SpareSuffices(ops: seq<Op>)
      requires Proper() && Suffices(ops)
      ensures BLOCK_SIZE < ToSpare()
    {
      hide Demand, AllocOk, Sum, Demands;
      var s, lists := Least()[..numVictims] + obtained[numVictims..], Lists(|allocs|);
      forall k | 0 <= k < |allocs| ensures s[k] <= Demand(lists[k], k < numVictims, ops, k) { Covers(k, ops); }
      DemandsCover(s, lists, numVictims, ops);
      SumConcat(Least()[..numVictims], obtained[numVictims..]);
    }

    lemma Covers(k: nat, ops: seq<Op>)
      requires Proper() && k < |allocs|
      ensures (if k < numVictims then Least()[k] else obtained[k])
           <= Demand(allocs[k].List(), k < numVictims, ops, k)
    {
      var a := allocs[k];
      assert AllocOk(a, obtained[k]);
      hide Ok, Peak;
      Multiply(a.m_itemSize, a.m_qBudgetObtained,
               Max(a.m_qBudgetObtained, Peak(ops, k, a.m_itemsPerBlock, |a.m_qList|) + a.m_itemsPerBlock));
    }

    /** An address at which there is no block. */
    static method FreeAddress(blocks: map<nat, GCBlock>) returns (address: nat)
      ensures address !in blocks
    {
      address := 0;
      var rest := blocks.Keys;
      while rest != {}
        invariant forall b :: b in blocks && b !in rest ==> b < address
        decreases |rest|
      {
        var b :| b in rest;
        if address <= b { address := b + 1; }
        rest := rest - {b};
      }
    }

    /** What there is to spare, from what the allocators have obtained. */
    method Sparing() returns (r: int)
      requires Proper()
      ensures r == ToSpare()
    {
      hide GCAlloc.Valid, Spare;
      var bytes: seq<int> := [];
      while |bytes| < |allocs|
        invariant |bytes| <= |allocs| && bytes == obtained[..|bytes|]
        decreases |allocs| - |bytes|
      {
        var a := allocs[|bytes|];
        assert AllocOk(a, obtained[|bytes|]);
        bytes := bytes + [a.m_itemSize * a.m_qBudgetObtained];
      }
      assert bytes == obtained;
      r := Spare(total, Least(), bytes, numVictims);
    }

    /** The step is a free that does not end. */
    ghost predicate StallsOn(op: Op)
      requires numVictims <= |allocs| == |obtained|
      reads this, allocs
    {
      op.FreeOp? && op.alloc < |allocs| && allocs[op.alloc].IsAllocated(op.item) && Stalls(op.alloc, op.item, false)
    }

    /** One step of a run, and what happened, unless it does not end. */
    method Perform(op: Op, ghost rest: seq<Op>) returns (stalled: bool, ghost e: Event)
      requires Valid() && AllTidy()
      modifies this, allocs
      ensures Valid() && AllTidy() && (stalled <==> old(StallsOn(op)))
      ensures old(Suffices([op] + rest)) ==> !stalled && Suffices(rest)
      ensures stalled ==> LiveItems() == old(LiveItems()) && StallsOn(op)
      ensures !stalled ==> Fair(op, e, old(LiveItems()), |allocs|) && LiveItems() == Step(e, old(LiveItems()))
      ensures e.Allocated? ==>
                && e.alloc < |allocs| && e.pending == |allocs[e.alloc].sweepList|
                && (e.grew <==> !(allocs[e.alloc].blocks.Keys <= old(allocs[e.alloc].blocks.Keys)))
    {
      hide Ok, Live, Sum, GCAlloc.Valid, GCAlloc.Tidy, AllocOk, Spare, Demands, Moderate;
      ghost var lists := Lists(|allocs|);
      stalled := WillStall(op);
      e := Nothing;
      if Suffices([op] + rest) { SufficesFor(op, rest); }
      if !stalled {
        e := PerformOne(op);
        DemandsFall(op, rest, numVictims, lists, Lists(|allocs|));
      }
    }

    lemma SufficesFor(op: Op, rest: seq<Op>)
      requires Valid() && Suffices([op] + rest)
      ensures !StallsOn(op)
    {
      hide GCAlloc.Valid, Ok, Spare, Demands, Sum;
      SpareSuffices([op] + rest);
      if op.FreeOp? && op.alloc < |allocs| { assert AllocOk(allocs[op.alloc], obtained[op.alloc]); }
    }

    method WillStall(op: Op) returns (stalls: bool)
      requires Valid()
      ensures stalls <==> StallsOn(op)
    {
      hide GCAlloc.Valid, Ok, Spare;
      var spare := Sparing();
      stalls := false;
      match op {
        case AllocOp(_, _, _) =>
        case FreeOp(k, x) =>
          if k < |allocs| && allocs[k].IsAllocated(x) {
            stalls := allocs[k].Exhausts(x, false) && spare <= Worth(k);
          }
      }
    }

    method PerformOne(op: Op) returns (ghost e: Event)
      requires Valid() && AllTidy() && !StallsOn(op)
      modifies this, allocs
      ensures Valid() && AllTidy()
      ensures Fair(op, e, old(LiveItems()), |allocs|) && LiveItems() == Step(e, old(LiveItems()))
      ensures e.Allocated? ==>
                && e.alloc < |allocs| && e.pending == |allocs[e.alloc].sweepList|
                && (e.grew <==> !(allocs[e.alloc].blocks.Keys <= old(allocs[e.alloc].blocks.Keys)))
      ensures forall k :: numVictims <= k < |allocs| ==> Moderate(op, k, old(allocs[k].List()), allocs[k].List())
    {
      hide Ok, Live, Sum, GCAlloc.Valid, GCAlloc.Tidy, AllocOk, Spare;
      e := Nothing;
      match op {
        case AllocOp(k, address0, refused) =>
          if k < |allocs| {
            var address := address0;
            if address in allocs[k].blocks { address := FreeAddress(allocs[k].blocks); }
            e := PerformAlloc(k, address, refused);
          }
        case FreeOp(k, x) =>
          LiveIf(k, x);
          if k < |allocs| && allocs[k].IsAllocated(x) {
            PerformFree(k, x);
            e := Freed(k, x);
          }
      }
    }

    lemma LiveIf(k: nat, x: Item)
      requires Proper()
      ensures (k, x) in LiveItems() <==> k < |allocs| && allocs[k].IsAllocated(x)
    {
      hide GCAlloc.Valid;
      if k < |allocs| { allocs[k].AllocatedIsAlive(x); }
    }

    method PerformAlloc(k: nat, address: nat, refused: bool) returns (ghost e: Event)
      requires Valid() && AllTidy() && k < |allocs| && address !in allocs[k].blocks
      modifies allocs[k]
      ensures Valid() && AllTidy() && obtained == old(obtained)
      ensures LiveItems() == Step(e, old(LiveItems()))
      ensures if e.Allocated? then e.alloc == k && (k, e.item) !in old(LiveItems()) else e == Nothing && refused
      ensures e.Allocated? ==> (e.grew <==> !(allocs[k].blocks.Keys <= old(allocs[k].blocks.Keys)))
      ensures e.Allocated? ==> e.pending == |allocs[k].sweepList| && (e.grew ==> e.pending == 0)
      ensures Shrinks(old(allocs[k].List()), allocs[k].List())
    {
      hide Ok, Live, Sum, GCAlloc.Valid, GCAlloc.Tidy, Spare;
      Others(k);
      var item := Alloc(k, address, refused);
      match item {
        case None =>
          e := Nothing;
          assert LiveItems() == old(LiveItems());
        case Some(x) =>
          e := Allocated(k, x, address in allocs[k].blocks, |allocs[k].sweepList|);
          assert LiveItems() == old(LiveItems()) + iset{(k, x)};
      }
    }

    lemma Others(k: nat)
      requires Proper() && k < |allocs|
      ensures forall j :: 0 <= j < |allocs| && j != k ==> allocs[j] != allocs[k]
    {
    }

    method PerformFree(k: nat, x: Item)
      requires Valid() && AllTidy() && k < |allocs| && allocs[k].IsAllocated(x) && !Stalls(k, x, false)
      modifies this, allocs
      ensures Valid() && AllTidy() && LiveItems() == old(LiveItems()) - iset{(k, x)}
      ensures forall j :: numVictims <= j < |allocs| ==>
                Moderate(FreeOp(k, x), j, old(allocs[j].List()), allocs[j].List())
    {
      hide Ok, Live, Sum, GCAlloc.Valid, GCAlloc.Tidy, Spare;
      BeforeFree(k, x);
      var freed := Free(k, x, false);
      assert LiveItems() == old(LiveItems()) - iset{(k, x)};
    }

    lemma BeforeFree(k: nat, x: Item)
      requires Proper() && k < |allocs| && allocs[k].IsAllocated(x)
      ensures allocs[k].Alive(x)
    {
      hide GCAlloc.Valid;
      allocs[k].AllocatedIsAlive(x);
    }

    /** Any run: allocation and freeing act on the allocated items exactly as they would if free items were reclaimed
        at once, whatever is swept when. All n steps before the first free that does not end, if there is one, are done;
        there is none if the quick lists cannot grow too long. */
    method Run(ops: seq<Op>) returns (ghost events: seq<Event>, n: nat)
      requires Valid() && AllTidy()
      modifies this, allocs
      ensures Valid() && AllTidy() && n <= |ops|
      ensures LiveItems() == Replay(events, old(LiveItems()))
      ensures Legal(ops[..n], events, old(LiveItems()), |allocs|)
      ensures n < |ops| ==> StallsOn(ops[n])
      ensures old(Suffices(ops)) ==> n == |ops|
    {
      hide Ok, Live, Sum, GCAlloc.Valid, GCAlloc.Tidy, Proper, Funded, Spare, Replay, Legal, Fair, Step, Demands,
           StallsOn;
      events, n := [], 0;
      NothingYet(LiveItems(), |allocs|);
      ghost var live := LiveItems();
      assert ops[..0] == [] && ops[0..] == ops;
      while n < |ops|
        invariant n <= |ops| && Valid() && AllTidy()
        invariant LiveItems() == Replay(events, live) && Legal(ops[..n], events, live, |allocs|)
        invariant old(Suffices(ops)) ==> Suffices(ops[n..])
      {
        assert [ops[n]] + ops[n + 1..] == ops[n..];
        ghost var e;
        var stalled;
        stalled, e := Perform(ops[n], ops[n + 1..]);
        if stalled { return; }
        Next(ops[..n], ops[n], events, e, live, |allocs|);
        events := events + [e];
        assert ops[..n + 1] == ops[..n] + [ops[n]];
        n := n + 1;
      }
    }

    static lemma NothingYet(live: iset<(nat, Item)>, n: nat)
      ensures Replay([], live) == live && Legal([], [], live, n)
    {
    }

    /** What survives a collection. */
    ghost function MarkedItems(): iset<(nat, Item)>
      reads this, allocs
    {
      iset k: nat, x: Item | k < |allocs| && MarkedItem(allocs[k], x) :: (k, x)
    }

    static ghost predicate MarkedItem(a: GCAlloc, x: Item)
      reads a
    {
      a.Alive(x) && x.blk in a.blocks && x.idx < |a.blocks[x.blk].bits| && a.blocks[x.blk].bits[x.idx].mark
    }

    /** GC::Finalize, for all allocators. */
    method FinalizeAll()
      requires Valid() && forall k :: 0 <= k < |allocs| ==> allocs[k].Marked()
      modifies allocs
      ensures Valid() && AllTidy() && LiveItems() == old(MarkedItems())
      ensures forall k :: 0 <= k < |allocs| ==> allocs[k].List() == old(allocs[k].List())
    {
      hide Ok, Live, Sum, GCAlloc.Valid, GCAlloc.Tidy, GCAlloc.Marked, Spare;
      var i := 0;
      while i < |allocs|
        invariant 0 <= i <= |allocs| && Valid() && obtained == old(obtained)
        invariant forall k :: 0 <= k < i ==> allocs[k].Tidy()
        invariant forall k :: 0 <= k < |allocs| ==> allocs[k].List() == old(allocs[k].List())
        invariant forall k, x :: 0 <= k < i ==> (allocs[k].Alive(x) <==> old(MarkedItem(allocs[k], x)))
        invariant forall k :: i <= k < |allocs| ==> allocs[k].Marked()
        invariant forall k, x :: i <= k < |allocs| ==> (MarkedItem(allocs[k], x) <==> old(MarkedItem(allocs[k], x)))
      {
        Others(i);
        FinalizeOne(i);
        i := i + 1;
      }
    }

    method FinalizeOne(i: nat)
      requires Valid() && i < |allocs| && allocs[i].Marked()
      modifies allocs[i]
      ensures Valid() && allocs[i].Tidy() && allocs[i].List() == old(allocs[i].List())
      ensures forall x :: allocs[i].Alive(x) <==> old(MarkedItem(allocs[i], x))
    {
      hide Ok, Sum, GCAlloc.Valid, GCAlloc.Marked;
      allocs[i].Finalize();
    }

    /** EstablishSweepInvariants and SweepNeedsSweeping, for all allocators: what is allocated stays so, and no mark
        is left. */
    method SweepAll()
      requires Valid() && AllTidy()
      modifies this, allocs
      ensures Valid() && LiveItems() == old(LiveItems())
      ensures forall k :: 0 <= k < |allocs| ==> AllSwept(allocs[k])
      // every allocator, bibop ones included, is back at one block's worth
      ensures obtained == Least() && ToSpare() == total - Sum(Least())
    {
      hide Ok, Live, Sum, GCAlloc.Valid, GCAlloc.Tidy, AllSwept, AllocOk;
      var i := 0;
      while i < |allocs|
        invariant 0 <= i <= |allocs| && Valid()
        invariant forall k :: i <= k < |allocs| ==> allocs[k].Tidy()
        invariant forall k :: 0 <= k < i ==> AllSwept(allocs[k]) && obtained[k] == Least()[k]
        invariant forall k, x :: 0 <= k < |allocs| ==> (allocs[k].Alive(x) <==> old(allocs[k].Alive(x)))
      {
        Others(i);
        SweepOne(i);
        i := i + 1;
      }
      AtLeast();
    }

    lemma AtLeast()
      requires numVictims <= |allocs| && obtained == Least()
      ensures ToSpare() == total - Sum(Least())
    {
      SumConcat(Least()[..numVictims], Least()[numVictims..]);
      assert Least()[..numVictims] + Least()[numVictims..] == Least();
    }

    static ghost predicate AllSwept(a: GCAlloc)
      reads a
    {
      forall b :: b in a.blocks ==> !a.blocks[b].needsSweeping && GCAlloc.AllClear(a.blocks[b], a.m_itemsPerBlock)
    }

    method SweepOne(i: nat)
      requires Valid() && i < |allocs| && allocs[i].Tidy()
      modifies this, allocs[i]
      ensures Valid() && AllSwept(allocs[i]) && obtained == old(obtained)[i := Least()[i]]
      ensures forall x :: allocs[i].Alive(x) <==> old(allocs[i].Alive(x))
    {
      hide Ok, Live, Sum, GCAlloc.Valid, Spare, GCAlloc.AllClear;
      var a := allocs[i];
      BytesRelinquished(a.m_itemSize, a.m_qBudgetObtained, a.m_itemsPerBlock);
      Relinquishes(a, obtained[i]);
      SumUpdate(obtained, i, Least()[i]);
      var relinquished := a.CoalesceQuickList();
      obtained := obtained[i := Least()[i]];
      remainingQuickListBudget := remainingQuickListBudget + relinquished;
      a.SweepNeedsSweeping();
    }

    static lemma Relinquishes(a: GCAlloc, obtained: int)
      requires AllocOk(a, obtained)
      ensures a.m_itemSize * (a.m_qBudgetObtained - a.m_itemsPerBlock) >= 0
    {
      hide Ok;
      Multiply(a.m_itemSize, 0, a.m_qBudgetObtained - a.m_itemsPerBlock);
    }

    /** A whole cycle: sweeping lazily after Finalize is as good as reclaiming everything unmarked at once. Whatever is
        allocated and freed meanwhile, the items allocated are those marked at Finalize, with allocations added and
        freed items removed; and when the next cycle starts, all items are free or without a mark. That is, unless a
        free does not end. */
    method Cycle(ops: seq<Op>) returns (ghost events: seq<Event>, n: nat)
      requires Valid() && (forall k :: 0 <= k < |allocs| ==> allocs[k].Marked())
      modifies this, allocs
      ensures Valid() && LiveItems() == Replay(events, old(MarkedItems())) && n <= |ops|
      ensures Legal(ops[..n], events, old(MarkedItems()), |allocs|)
      ensures n == |ops| ==> (forall k :: 0 <= k < |allocs| ==> AllSwept(allocs[k])) && obtained == Least()
      ensures n < |ops| ==> StallsOn(ops[n])
      ensures old(Suffices(ops)) ==> n == |ops|
    {
      hide Proper, Funded, Balanced, GCAlloc.Tidy, GCAlloc.Marked, AllSwept, Replay, Legal, Spare, Sum, Demands,
           StallsOn;
      ghost var lists := Lists(|allocs|);
      FinalizeAll();
      assert Lists(|allocs|) == lists;
      events, n := Run(ops);
      if n == |ops| { SweepAll(); }
    }

    // ----- A free that does not end

    /** The loop of ObtainQuickListBudget, when there is not enough to spare: after any number of rounds the condition
        for another one holds. */
    method ObtainInVain(nbytes: nat, rounds: nat)
      requires Proper() && Balanced(0) && ToSpare() <= nbytes
      modifies this, allocs
      ensures Proper() && Balanced(0) && ToSpare() == old(ToSpare()) && remainingQuickListBudget <= nbytes
    {
      hide Ok, Live, SameLive, Sum, GCAlloc.Valid, GCAlloc.Tidy, Spare, AllocOk;
      NeverEnough(nbytes);
      for i := 0 to rounds
        invariant Proper() && Balanced(0) && ToSpare() == old(ToSpare()) && remainingQuickListBudget <= nbytes
      {
        CoalesceVictim();
        NeverEnough(nbytes);
      }
    }

    /** Free, when it stalls: the loop that it gets into does not end. */
    method FreeInVain(k: nat, item: Item, marking: bool, rounds: nat)
      requires Valid() && k < |allocs| && allocs[k].Alive(item) && Stalls(k, item, marking)
      modifies this, allocs
      ensures Proper() && Balanced(0) && remainingQuickListBudget <= Worth(k)
    {
      hide Ok, Live, SameLive, SameLiveBut, Sum, GCAlloc.Valid, GCAlloc.Tidy, Spare, AllocOk;
      var freed, exhausted := FreeItem(k, item, marking);
      assert exhausted;
      WorthOf(k);
      ObtainInVain(Worth(k), rounds);
    }

    /** The items are allocated, all different, and allocator k has nothing to sweep. */
    ghost predicate Holding(k: nat, items: seq<Item>, from: nat)
      requires k < |allocs|
      reads this, allocs
    {
      && allocs[k].sweepList == []
      && (forall i, j :: 0 <= i < j < |items| ==> items[i] != items[j])
      && forall i :: from <= i < |items| ==> allocs[k].Alive(items[i])
    }

    /** Allocator k hands out n items. */
    method AllocMany(k: nat, n: nat) returns (items: seq<Item>)
      requires Valid() && AllTidy() && k < |allocs| && allocs[k].sweepList == []
      modifies allocs[k]
      ensures Valid() && AllTidy() && obtained == old(obtained) && |items| == n && Holding(k, items, 0)
    {
      hide Ok, Live, Sum, GCAlloc.Valid, GCAlloc.Tidy, Spare;
      items := [];
      while |items| < n
        invariant Valid() && AllTidy() && obtained == old(obtained) && |items| <= n && Holding(k, items, 0)
        decreases n - |items|
      {
        items := AllocMore(k, items);
      }
    }

    method AllocMore(k: nat, items: seq<Item>) returns (items': seq<Item>)
      requires Valid() && AllTidy() && k < |allocs| && Holding(k, items, 0)
      modifies allocs[k]
      ensures Valid() && AllTidy() && obtained == old(obtained) && |items'| == |items| + 1 && Holding(k, items', 0)
    {
      hide Ok, Live, Sum, GCAlloc.Valid, GCAlloc.Tidy, Spare;
      Others(k);
      var address := FreeAddress(allocs[k].blocks);
      var item := Alloc(k, address, false);
      items' := items + [item.value];
    }

    /** They are freed again, until budget is needed that is not there. That must happen: what the quick list gets is
        taken from what there is to spare. */
    method FreeUntilStalled(k: nat, items: seq<Item>) returns (n: nat)
      requires Valid() && AllTidy() && numVictims <= k < |allocs| && Holding(k, items, 0)
      requires 0 < ToSpare() && ToSpare() + obtained[k] <= |items|
      modifies this, allocs
      ensures Valid() && AllTidy() && n < |items| && allocs[k].Alive(items[n]) && Stalls(k, items[n], false)
    {
      hide Ok, Live, Sum, GCAlloc.Valid, GCAlloc.Tidy, Spare, Stalls;
      n := 0;
      ListBelow(k, 0);
      var stalls := WillStall(FreeOp(k, items[0]));
      IsAllocatedIf(k, items[0]);
      while !stalls
        invariant Valid() && AllTidy() && Holding(k, items, n) && n < |items|
        invariant 0 < ToSpare() && ToSpare() + obtained[k] == old(ToSpare() + obtained[k])
        invariant n <= |allocs[k].m_qList| && (stalls <==> Stalls(k, items[n], false))
        decreases |items| - n
      {
        FreeOne(k, items, n);
        n := n + 1;
        ListBelow(k, n);
        IsAllocatedIf(k, items[n]);
        stalls := WillStall(FreeOp(k, items[n]));
      }
    }

    /** A quick list of n items has taken as much budget at least. */
    lemma ListBelow(k: nat, n: nat)
      requires Valid() && k < |allocs| && n <= |allocs[k].m_qList|
      ensures n <= obtained[k]
    {
      hide GCAlloc.Valid;
      assert AllocOk(allocs[k], obtained[k]);
      Holds(allocs[k], obtained[k]);
      Multiply(|allocs[k].m_qList|, 1, allocs[k].m_itemSize);
    }

    lemma IsAllocatedIf(k: nat, x: Item)
      requires Proper() && k < |allocs| && allocs[k].Alive(x)
      ensures allocs[k].IsAllocated(x)
    {
      hide GCAlloc.Valid;
      allocs[k].AllocatedIsAlive(x);
    }

    method FreeOne(k: nat, items: seq<Item>, n: nat)
      requires Valid() && AllTidy() && numVictims <= k < |allocs| && Holding(k, items, n) && n < |items|
      requires !Stalls(k, items[n], false) && 0 < ToSpare()
      modifies this, allocs
      ensures Valid() && AllTidy() && Holding(k, items, n + 1)
      ensures 0 < ToSpare() && ToSpare() + obtained[k] == old(ToSpare() + obtained[k])
      ensures |allocs[k].m_qList| == old(|allocs[k].m_qList|) + 1
    {
      hide Ok, Live, Sum, GCAlloc.Valid, GCAlloc.Tidy, Spare;
      Unswept(k, items[n]);
      BytesGranted(allocs[k].m_itemSize, allocs[k].m_qBudgetObtained, allocs[k].m_itemsPerBlock);
      assert AllocOk(allocs[k], obtained[k]);
      var freed := Free(k, items[n], false);
      assert AllocOk(allocs[k], obtained[k]);
    }

    lemma Unswept(k: nat, x: Item)
      requires Proper() && k < |allocs| && allocs[k].Alive(x) && allocs[k].sweepList == []
      ensures x.blk in allocs[k].blocks && !allocs[k].blocks[x.blk].needsSweeping
    {
      GCAlloc.NoneToSweep(allocs[k].S(), allocs[k].m_itemsPerBlock);
    }

    /** With the real constants there are 278 blocks' worth to spare at first. */
    lemma InitiallyToSpare()
      requires Proper() && numVictims == 5 * NUM_SIZE_CLASSES && |allocs| == numVictims + 2
      requires total == 3 * NUM_SIZE_CLASSES * 4 * BLOCK_SIZE && obtained == Least()
      ensures ToSpare() >= 278 * BLOCK_SIZE
    {
      hide GCAlloc.Valid;
      assert forall k :: 0 <= k < |allocs| ==> AllocOk(allocs[k], obtained[k]);
      SumBound(Least()[..numVictims], BLOCK_SIZE);
      SumBound(obtained[numVictims..], BLOCK_SIZE);
    }
  }

  /** From the start, just by allocating and freeing the items of one bibop allocator, the collector gets where it is to
      free another one, and does not come back. */
  method StallingFree(classes: seq<SizeClass>) returns (gc: GC, k: nat, item: Item)
    requires |classes| == 5 * NUM_SIZE_CLASSES + 2 && forall k :: 0 <= k < |classes| ==> FitsBlock(classes[k])
    ensures fresh(gc) && gc.Valid() && gc.AllTidy() && gc.numVictims <= k < |gc.allocs|
    ensures gc.allocs[k].Alive(item) && gc.Stalls(k, item, false)
  {
    hide GCAlloc.Valid, GCAlloc.Tidy, GC.Proper, GC.Funded, Spare, Ok, Live, Sum;
    gc := new GC(classes);
    k := gc.numVictims;
    var spare := gc.Sparing();
    var items := gc.AllocMany(k, spare + gc.Worth(k));
    var n := gc.FreeUntilStalled(k, items);
    item := items[n];
  }
}
