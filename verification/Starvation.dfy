/** How the second recovery loop of MMgc/GC.cpp, FinishIncrementalMark, can starve: with a mark stack of one segment
    that the tails of the stack roots fill to the last word, a large object that only the head of such a range points to
    is never pushed. Here are the exact effects of marking in a heap in which nothing else points to an object. */
module Starvation {
  import opened Basics
  import opened MarkStack
  import opened TriColour

  /** No object has been touched by the marker, and the only word that points to an object is the first of 'hot', if
      any. The object is large: small ones need not be pushed when a pointer to them is found conservatively. */
  ghost predicate Starving(g: Graph, b: Colouring, hot: Base) {
    && !hot.ObjectBase? && b.Keys == g.heap.Keys && (forall o :: o in b ==> White(b, o))
    && (Fields(g, hot) != [] ==>
          var o := Fields(g, hot)[0]; o in g.heap && g.heap[o].containsPointers && Large(g.heap[o]))
    && forall base: Base, i: nat :: i < |Fields(g, base)| && (base != hot || i != 0) ==> Fields(g, base)[i] !in g.heap
  }

  // ----- Exact effects, with one segment

  ghost predicate Full(segmentWords: nat, v: View) {
    TotalWords(v.items) + 1 > segmentWords
  }

  /** With one segment an item is refused exactly if it does not fit. */
  function PushOn(segmentWords: nat, v: View, item: WorkItem): View {
    if TotalWords(v.items) + Words(item) <= segmentWords then v.(items := v.items + [item]) else v.(overflow := true)
  }

  /** The stack when the head of a range is about to be scanned. */
  function SplitEffect(g: Graph, threshold: nat, segmentWords: nat, v: View, base: Base, from: nat): View {
    if |Fields(g, base)| > from + threshold then PushOn(segmentWords, v, Chunk(base, from + threshold)) else v
  }

  /** Scanning a range that is not an object: only the first word of 'hot' is of any effect, and that is refused. */
  function ScanEffect(g: Graph, threshold: nat, segmentWords: nat, v: View, base: Base, from: nat, hot: Base): View {
    var v1 := SplitEffect(g, threshold, segmentWords, v, base, from);
    if base == hot && from == 0 && Fields(g, base) != [] then v1.(overflow := true) else v1
  }

  ghost predicate Refused(g: Graph, threshold: nat, segmentWords: nat, v: View, base: Base, from: nat, hot: Base) {
    base == hot && from == 0 && Fields(g, base) != [] ==>
        Full(segmentWords, SplitEffect(g, threshold, segmentWords, v, base, from))
  }

  /** What precedes the scan of a root: its protector, if it will be split. */
  function GuardEffect(g: Graph, threshold: nat, segmentWords: nat, v: View, r: nat): View {
    if |Fields(g, RootBase(r))| > threshold then PushOn(segmentWords, v, Protector(RootBase(r))) else v
  }

  function RootEffect(g: Graph, threshold: nat, segmentWords: nat, v: View, r: nat, stackRoots: bool, hot: Base): View
    requires r < |g.roots|
  {
    if g.roots[r].exact || g.roots[r].isStackMemory != stackRoots then v
    else ScanEffect(g, threshold, segmentWords, GuardEffect(g, threshold, segmentWords, v, r), RootBase(r), 0, hot)
  }

  ghost predicate RootRefused(g: Graph, threshold: nat, segmentWords: nat, v: View, r: nat, stackRoots: bool, hot: Base)
    requires r < |g.roots|
  {
    if g.roots[r].exact then RootBase(r) != hot
    else g.roots[r].isStackMemory == stackRoots ==>
           Refused(g, threshold, segmentWords, GuardEffect(g, threshold, segmentWords, v, r), RootBase(r), 0, hot)
  }

  /** The first n roots, one after another. */
  function RootsEffect(g: Graph, threshold: nat, segmentWords: nat, v: View, n: nat, stackRoots: bool, hot: Base): View
    requires n <= |g.roots|
  {
    if n == 0 then v
    else RootEffect(g, threshold, segmentWords, RootsEffect(g, threshold, segmentWords, v, n - 1, stackRoots, hot),
                    n - 1, stackRoots, hot)
  }

  ghost predicate RootsRefused(g: Graph, threshold: nat, segmentWords: nat, v: View, stackRoots: bool, hot: Base) {
    forall r :: 0 <= r < |g.roots| ==>
      RootRefused(g, threshold, segmentWords, RootsEffect(g, threshold, segmentWords, v, r, stackRoots, hot),
                  r, stackRoots, hot)
  }

  // ----- Draining the stack

  /** No item leads to the word that points to an object. */
  ghost predicate Calm(items: seq<WorkItem>, hot: Base) {
    forall item :: item in items ==> !item.GCObject? && item != Chunk(hot, 0)
  }

  /** The top item is all of 'hot', it will be split, and the stack is full to the last word. */
  ghost predicate Doomed(g: Graph, threshold: nat, segmentWords: nat, items: seq<WorkItem>, hot: Base) {
    && items != [] && items[|items| - 1] == Chunk(hot, 0) && Calm(items[..|items| - 1], hot)
    && |Fields(g, hot)| > threshold && TotalWords(items) == segmentWords
  }

  /** Popping an item that is not an object. */
  function PopEffect(g: Graph, threshold: nat, segmentWords: nat, v: View, hot: Base): View
    requires v.items != []
  {
    var item, v1 := v.items[|v.items| - 1], v.(items := v.items[..|v.items| - 1]);
    if item.Chunk? then ScanEffect(g, threshold, segmentWords, v1, item.base, item.from, hot) else v1
  }

  ghost predicate PopRefused(g: Graph, threshold: nat, segmentWords: nat, v: View, hot: Base)
    requires v.items != []
  {
    var item, v1 := v.items[|v.items| - 1], v.(items := v.items[..|v.items| - 1]);
    !item.GCObject? && (item.Chunk? ==> Refused(g, threshold, segmentWords, v1, item.base, item.from, hot))
  }

  lemma WordsOfInit(items: seq<WorkItem>)
    requires items != []
    ensures TotalWords(items) == TotalWords(items[..|items| - 1]) + Words(items[|items| - 1])
  {
  }

  /** Calm items stay calm, and nothing else changes. */
  lemma PopCalm(g: Graph, threshold: nat, segmentWords: nat, v: View, hot: Base)
    requires v.items != [] && Calm(v.items, hot) && TotalWords(v.items) <= segmentWords && 0 < threshold
    ensures PopRefused(g, threshold, segmentWords, v, hot)
    ensures var v' := PopEffect(g, threshold, segmentWords, v, hot);
      Calm(v'.items, hot) && v' == v.(items := v'.items)
  {
    hide TotalWords;
    WordsOfInit(v.items);
    var item, init := v.items[|v.items| - 1], v.items[..|v.items| - 1];
    assert item in v.items;
    forall x | x in init ensures !x.GCObject? && x != Chunk(hot, 0) { assert x in v.items; }
    if item.Chunk? {
      PushedWords(segmentWords, v.(items := init), Chunk(item.base, item.from + threshold));
      assert TotalWords(init) + 4 <= segmentWords;
    }
  }

  /** The object is refused, and what remains is calm. */
  lemma PopDoomed(g: Graph, threshold: nat, segmentWords: nat, v: View, hot: Base)
    requires Doomed(g, threshold, segmentWords, v.items, hot) && 0 < threshold
    ensures v.items != [] && PopRefused(g, threshold, segmentWords, v, hot)
    ensures var v' := PopEffect(g, threshold, segmentWords, v, hot);
      Calm(v'.items, hot) && v' == v.(items := v'.items, overflow := true)
  {
    WordsOfInit(v.items);
    var init := v.items[..|v.items| - 1];
    assert (init + [Chunk(hot, threshold)])[..|init|] == init;
    WordsOfInit(init + [Chunk(hot, threshold)]);
  }

  // ----- Roots

  /** Roots of this kind do not include 'hot', exactly traced ones even less. */
  ghost predicate ColdRoots(g: Graph, stackRoots: bool, hot: Base) {
    forall r :: 0 <= r < |g.roots| && RootBase(r) == hot ==>
      !g.roots[r].exact && g.roots[r].isStackMemory != stackRoots
  }

  lemma RootEffectKeeps(g: Graph, threshold: nat, segmentWords: nat, v: View, r: nat, stackRoots: bool, hot: Base)
    requires r < |g.roots|
    ensures var v' := RootEffect(g, threshold, segmentWords, v, r, stackRoots, hot);
      v'.b == v.b && v'.rest == v.rest && (v.overflow ==> v'.overflow)
  {
  }

  lemma {:induction false} RootsEffectKeeps(g: Graph, threshold: nat, segmentWords: nat, v: View, n: nat,
                                            stackRoots: bool, hot: Base)
    requires n <= |g.roots|
    ensures var v' := RootsEffect(g, threshold, segmentWords, v, n, stackRoots, hot);
      v'.b == v.b && v'.rest == v.rest && (v.overflow ==> v'.overflow)
  {
    hide RootEffect;
    if n > 0 {
      RootsEffectKeeps(g, threshold, segmentWords, v, n - 1, stackRoots, hot);
      RootEffectKeeps(g, threshold, segmentWords, RootsEffect(g, threshold, segmentWords, v, n - 1, stackRoots, hot),
                      n - 1, stackRoots, hot);
    }
  }

  /** A root whose marking begins with an empty stack. */
  lemma DeepRoot(g: Graph, threshold: nat, segmentWords: nat, v: View, r: nat, stackRoots: bool, hot: Base)
    requires r < |g.roots| && v.items == [] && 7 <= segmentWords && 0 < threshold && ColdRoots(g, stackRoots, hot)
    ensures RootRefused(g, threshold, segmentWords, v, r, stackRoots, hot)
    ensures var v' := RootEffect(g, threshold, segmentWords, v, r, stackRoots, hot);
      Calm(v'.items, hot) && v' == v.(items := v'.items)
  {
    hide TotalWords, Fields;
    WordsOfOne(Protector(RootBase(r)));
    assert RootBase(r) == hot ==> !g.roots[r].exact;
    var v1 := GuardEffect(g, threshold, segmentWords, v, r);
    assert v1.items == [] || v1.items == [Protector(RootBase(r))];
  }

  lemma WordsOfOne(item: WorkItem)
    ensures TotalWords([]) == 0 && TotalWords([item]) == Words(item)
  {
    assert [item][..0] == [];
  }

  /** Roots other than 'hot' are queued without a trace. */
  lemma {:induction false} OtherRootsQueued(g: Graph, threshold: nat, segmentWords: nat, v: View, n: nat,
                                            stackRoots: bool, hot: Base)
    requires n <= |g.roots| && 0 < threshold && ColdRoots(g, stackRoots, hot) && Calm(v.items, hot)
    ensures forall r :: 0 <= r < n ==>
      RootRefused(g, threshold, segmentWords, RootsEffect(g, threshold, segmentWords, v, r, stackRoots, hot),
                  r, stackRoots, hot)
    ensures Calm(RootsEffect(g, threshold, segmentWords, v, n, stackRoots, hot).items, hot)
  {
    hide RootEffect, RootRefused, Calm, ColdRoots;
    if n > 0 {
      OtherRootsQueued(g, threshold, segmentWords, v, n - 1, stackRoots, hot);
      var v1 := RootsEffect(g, threshold, segmentWords, v, n - 1, stackRoots, hot);
      OtherRootQueued(g, threshold, segmentWords, v1, n - 1, stackRoots, hot);
    }
  }

  lemma OtherRootQueued(g: Graph, threshold: nat, segmentWords: nat, v: View, r: nat, stackRoots: bool, hot: Base)
    requires r < |g.roots| && 0 < threshold && ColdRoots(g, stackRoots, hot) && Calm(v.items, hot)
    ensures RootRefused(g, threshold, segmentWords, v, r, stackRoots, hot)
    ensures Calm(RootEffect(g, threshold, segmentWords, v, r, stackRoots, hot).items, hot)
  {
  }

  /** The stack roots are queued, and then the native stack, if it is to be scanned. */
  function QueueEffect(g: Graph, threshold: nat, segmentWords: nat, v: View, scanStack: bool, hot: Base): View {
    var v1 := RootsEffect(g, threshold, segmentWords, v, |g.roots|, true, hot);
    if scanStack then PushOn(segmentWords, v1, Chunk(StackBase, 0)) else v1
  }

  /** Queueing the stack, and marking from it, signals an overflow but marks nothing. */
  ghost predicate Stuck(g: Graph, threshold: nat, segmentWords: nat, v: View, scanStack: bool, hot: Base) {
    && RootsRefused(g, threshold, segmentWords, v, true, hot)
    && var v1 := QueueEffect(g, threshold, segmentWords, v, scanStack, hot);
       (Calm(v1.items, hot) && v1.overflow) || Doomed(g, threshold, segmentWords, v1.items, hot)
  }

  // ----- When the tails fill the segment exactly

  /** The tails of the stack roots, and of the native stack if it is scanned, fill the segment to the last word, and
      'hot' is the last of these ranges. */
  ghost predicate Fills(g: Graph, threshold: nat, segmentWords: nat, scanStack: bool, hot: Base) {
    && StackWords(g.roots, threshold, scanStack) == segmentWords
    && if scanStack then hot == StackBase && |g.stack| > threshold
       else
         && hot.RootBase? && hot.index < |g.roots| && RootWords(g.roots[hot.index], threshold, true) == 6
         && RootsWords(g.roots, threshold, hot.index + 1, true) == segmentWords
  }

  lemma FillsIsCold(g: Graph, threshold: nat, segmentWords: nat, scanStack: bool, hot: Base)
    requires Fills(g, threshold, segmentWords, scanStack, hot)
    ensures ColdRoots(g, false, hot)
  {
  }

  lemma {:induction false} RootsAreSixes(roots: seq<Root>, threshold: nat, n: nat, stackRoots: bool)
    requires n <= |roots|
    ensures RootsWords(roots, threshold, n, stackRoots) % 6 == 0
  {
    if n > 0 { RootsAreSixes(roots, threshold, n - 1, stackRoots); }
  }

  lemma PushedWords(segmentWords: nat, v: View, item: WorkItem)
    ensures var v' := PushOn(segmentWords, v, item);
      && v'.b == v.b && v'.rest == v.rest
      && TotalWords(v'.items) == TotalWords(v.items) +
           if TotalWords(v.items) + Words(item) <= segmentWords then Words(item) else 0
    ensures forall hot :: Calm(v.items, hot) && !item.GCObject? && item != Chunk(hot, 0) ==>
              Calm(PushOn(segmentWords, v, item).items, hot)
  {
    WordsOfInit(v.items + [item]);
    assert (v.items + [item])[..|v.items|] == v.items;
  }

  /** While the stack holds whole roots only, a root finds room for its protector and its tail, or for neither. */
  lemma WholeRoot(g: Graph, threshold: nat, segmentWords: nat, v: View, r: nat, stackRoots: bool, hot: Base)
    requires r < |g.roots| && 0 < threshold && Fills(g, threshold, segmentWords, false, hot)
    requires Calm(v.items, hot) && TotalWords(v.items) % 6 == 0 && TotalWords(v.items) <= segmentWords
    requires RootBase(r) == hot && stackRoots ==> TotalWords(v.items) + 6 >= segmentWords
    ensures RootRefused(g, threshold, segmentWords, v, r, stackRoots, hot)
    ensures var v' := RootEffect(g, threshold, segmentWords, v, r, stackRoots, hot);
      && Calm(v'.items, hot) && (RootBase(r) == hot && stackRoots ==> v'.overflow)
      && TotalWords(v'.items) == Min(TotalWords(v.items) + RootWords(g.roots[r], threshold, stackRoots), segmentWords)
  {
    hide TotalWords, Calm, PushOn;
    RootsAreSixes(g.roots, threshold, |g.roots|, true);
    var guarded := GuardEffect(g, threshold, segmentWords, v, r);
    PushedWords(segmentWords, v, Protector(RootBase(r)));
    PushedWords(segmentWords, guarded, Chunk(RootBase(r), threshold));
    assert 0 + threshold == threshold;
  }

  lemma {:induction false} WholeRoots(g: Graph, threshold: nat, segmentWords: nat, v: View, n: nat, stackRoots: bool,
                                      hot: Base)
    requires n <= |g.roots| && 0 < threshold && Fills(g, threshold, segmentWords, false, hot)
    requires Calm(v.items, hot) && TotalWords(v.items) % 6 == 0 && TotalWords(v.items) <= segmentWords
    ensures forall r :: 0 <= r < n ==>
      RootRefused(g, threshold, segmentWords, RootsEffect(g, threshold, segmentWords, v, r, stackRoots, hot),
                  r, stackRoots, hot)
    ensures var v' := RootsEffect(g, threshold, segmentWords, v, n, stackRoots, hot);
      && Calm(v'.items, hot) && (hot.index < n && stackRoots ==> v'.overflow)
      && TotalWords(v'.items) == Min(TotalWords(v.items) + RootsWords(g.roots, threshold, n, stackRoots), segmentWords)
  {
    hide TotalWords, Calm, RootEffect, RootRefused;
    if n > 0 {
      WholeRoots(g, threshold, segmentWords, v, n - 1, stackRoots, hot);
      var v1 := RootsEffect(g, threshold, segmentWords, v, n - 1, stackRoots, hot);
      RootsAreSixes(g.roots, threshold, n - 1, stackRoots);
      RootsAreSixes(g.roots, threshold, |g.roots|, true);
      assert RootsWords(g.roots, threshold, n, stackRoots)
          == RootsWords(g.roots, threshold, n - 1, stackRoots) + RootWords(g.roots[n - 1], threshold, stackRoots);
      WholeRoot(g, threshold, segmentWords, v1, n - 1, stackRoots, hot);
      RootEffectKeeps(g, threshold, segmentWords, v1, n - 1, stackRoots, hot);
    }
  }

  /** Once something was refused there is no room for a tail. */
  ghost predicate TailRefused(segmentWords: nat, v: View) {
    TotalWords(v.items) <= segmentWords && (v.overflow ==> TotalWords(v.items) + 4 > segmentWords)
  }

  lemma ColdRoot(g: Graph, threshold: nat, segmentWords: nat, v: View, r: nat, stackRoots: bool)
    requires r < |g.roots| && 0 < threshold && Calm(v.items, StackBase) && TailRefused(segmentWords, v)
    ensures RootRefused(g, threshold, segmentWords, v, r, stackRoots, StackBase)
    ensures var v' := RootEffect(g, threshold, segmentWords, v, r, stackRoots, StackBase);
      && Calm(v'.items, StackBase) && TailRefused(segmentWords, v') && TotalWords(v.items) <= TotalWords(v'.items)
      && (!v'.overflow ==> TotalWords(v'.items) == TotalWords(v.items) + RootWords(g.roots[r], threshold, stackRoots))
  {
    hide TotalWords, Calm;
    PushedWords(segmentWords, v, Protector(RootBase(r)));
    PushedWords(segmentWords, GuardEffect(g, threshold, segmentWords, v, r), Chunk(RootBase(r), threshold));
    assert 0 + threshold == threshold;
  }

  lemma {:induction false} ColdRootsQueued(g: Graph, threshold: nat, segmentWords: nat, v: View, n: nat,
                                           stackRoots: bool)
    requires n <= |g.roots| && 0 < threshold && Calm(v.items, StackBase) && TailRefused(segmentWords, v)
    ensures forall r :: 0 <= r < n ==>
      RootRefused(g, threshold, segmentWords, RootsEffect(g, threshold, segmentWords, v, r, stackRoots, StackBase),
                  r, stackRoots, StackBase)
    ensures var v' := RootsEffect(g, threshold, segmentWords, v, n, stackRoots, StackBase);
      && Calm(v'.items, StackBase) && TailRefused(segmentWords, v') && TotalWords(v.items) <= TotalWords(v'.items)
      && (!v'.overflow ==>
            TotalWords(v'.items) == TotalWords(v.items) + RootsWords(g.roots, threshold, n, stackRoots))
  {
    hide TotalWords, Calm, RootEffect, RootRefused, TailRefused;
    if n > 0 {
      ColdRootsQueued(g, threshold, segmentWords, v, n - 1, stackRoots);
      var v1 := RootsEffect(g, threshold, segmentWords, v, n - 1, stackRoots, StackBase);
      ColdRoot(g, threshold, segmentWords, v1, n - 1, stackRoots);
      RootEffectKeeps(g, threshold, segmentWords, v1, n - 1, stackRoots, StackBase);
    }
  }

  /** Whatever tails of other roots are on the stack already: the stack gets full, and the object is refused. */
  lemma FilledIsStuck(g: Graph, threshold: nat, segmentWords: nat, v: View, scanStack: bool, hot: Base)
    requires Fills(g, threshold, segmentWords, scanStack, hot) && 0 < threshold
    requires v.items == [] && !v.overflow
    ensures Stuck(g, threshold, segmentWords, v, scanStack, hot)
    ensures var v1 := RootsEffect(g, threshold, segmentWords, v, |g.roots|, false, hot);
      RootsRefused(g, threshold, segmentWords, v, false, hot) && Stuck(g, threshold, segmentWords, v1, scanStack, hot)
  {
    hide Stuck, RootsEffect, RootRefused, Calm, TotalWords, RootsWords;
    var v1 := RootsEffect(g, threshold, segmentWords, v, |g.roots|, false, hot);
    NothingStacked(segmentWords, v, hot);
    if scanStack {
      StackIsStuck(g, threshold, segmentWords, v);
      ColdRootsQueued(g, threshold, segmentWords, v, |g.roots|, false);
      StackIsStuck(g, threshold, segmentWords, v1);
    } else {
      RootsAreStuck(g, threshold, segmentWords, v, hot);
      WholeRoots(g, threshold, segmentWords, v, |g.roots|, false, hot);
      RootsAreSixes(g.roots, threshold, |g.roots|, false);
      RootsAreSixes(g.roots, threshold, |g.roots|, true);
      RootsAreStuck(g, threshold, segmentWords, v1, hot);
    }
  }

  lemma NothingStacked(segmentWords: nat, v: View, hot: Base)
    requires v.items == [] && !v.overflow
    ensures Calm(v.items, hot) && TotalWords(v.items) == 0 && TailRefused(segmentWords, v)
  {
  }

  lemma RootsAreStuck(g: Graph, threshold: nat, segmentWords: nat, v: View, hot: Base)
    requires Fills(g, threshold, segmentWords, false, hot) && 0 < threshold
    requires Calm(v.items, hot) && TotalWords(v.items) % 6 == 0 && TotalWords(v.items) <= segmentWords
    ensures Stuck(g, threshold, segmentWords, v, false, hot)
  {
    hide RootsEffect, RootRefused, Calm, TotalWords, RootsWords;
    WholeRoots(g, threshold, segmentWords, v, |g.roots|, true, hot);
  }

  lemma StackIsStuck(g: Graph, threshold: nat, segmentWords: nat, v: View)
    requires Fills(g, threshold, segmentWords, true, StackBase) && 0 < threshold
    requires Calm(v.items, StackBase) && TailRefused(segmentWords, v)
    ensures Stuck(g, threshold, segmentWords, v, true, StackBase)
  {
    hide TotalWords, Calm, RootEffect, RootRefused;
    ColdRootsQueued(g, threshold, segmentWords, v, |g.roots|, true);
    var v1 := RootsEffect(g, threshold, segmentWords, v, |g.roots|, true, StackBase);
    PushedWords(segmentWords, v1, Chunk(StackBase, 0));
    assert (v1.items + [Chunk(StackBase, 0)])[..|v1.items|] == v1.items;
  }
}
