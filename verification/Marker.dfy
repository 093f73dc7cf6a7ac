/** The incremental marker of MMgc/GC.cpp: mark bits, two work stacks, the container-greying
    write barrier, recovery from mark stack overflow, and the mutator's steps in between. */
module Marker {
  import opened MarkStack
  import opened Starvation
  import opened TriColour

  class GC {
    /** kMarkItemSplitThreshold, in words */
    const splitThreshold: nat
    const m_incrementalWork: GCMarkStack
    const m_barrierWork: GCMarkStack

    /** The objects, by address. */
    var heap: map<Obj, Object>
    /** All objects are below this address. */
    var memEnd: nat
    var roots: seq<Root>
    var stack: seq<Word>
    var bits: Colouring
    var marking: bool
    var m_markStackOverflow: bool
    /** Any set of objects that were out of the program's reach when marking began. */
    ghost var garbage: set<Obj>
    /** Any range of words outside the heap. */
    ghost var hot: Base

    function G(): Graph
      reads `heap, `roots, `stack
    {
      Graph(heap, roots, stack)
    }

    ghost function Work(): multiset<WorkItem>
      reads this, m_incrementalWork, m_barrierWork
    {
      TriColour.Work(Now())
    }

    ghost function Now(): View
      reads this, m_incrementalWork, m_barrierWork
    {
      View(bits, m_incrementalWork.Contents(), multiset(m_barrierWork.Contents()), m_markStackOverflow)
    }

    /** The object invariant while the marker holds the objects in 'hand' off the stacks. */
    ghost predicate Holding(hand: set<Obj>)
      reads this, m_incrementalWork, m_barrierWork
    {
      && 0 < splitThreshold
      && m_incrementalWork != m_barrierWork
      && m_incrementalWork.Valid() && m_barrierWork.Valid()
      && m_incrementalWork.segmentWords == m_barrierWork.segmentWords
      && WellFormed(G(), bits)
      && (forall o :: o in heap ==> o < memEnd)
      && QueueExact(bits, Work(), hand)
      && ItemsInGraph(G(), m_incrementalWork.Contents())
      && (forall item :: item in m_barrierWork.Contents() ==> item.GCObject?)
      && Spared(G(), bits, m_incrementalWork.Contents(), garbage)
    }

    ghost predicate Valid()
      reads this, m_incrementalWork, m_barrierWork
    {
      Holding({})
    }

    /** There is one segment only, and nothing points to an object but the first word of 'hot'. */
    ghost predicate Starves()
      reads this
    {
      m_incrementalWork.allowance == 1 && Starving(G(), bits, hot)
    }

    constructor (splitThreshold: nat, segmentWords: nat, allowance: nat, roots: seq<Root>)
      requires 0 < splitThreshold && 7 <= segmentWords && 1 <= allowance
      ensures Ready() && !marking && heap == map[] && this.roots == roots && stack == [] && garbage == {}
      ensures this.splitThreshold == splitThreshold
      ensures m_incrementalWork.segmentWords == segmentWords && m_incrementalWork.allowance == allowance
      ensures fresh(m_incrementalWork) && fresh(m_barrierWork)
      ensures m_incrementalWork.Contents() == [] && m_barrierWork.Contents() == []
    {
      this.splitThreshold := splitThreshold;
      var incremental := new GCMarkStack(segmentWords, allowance);
      var barrier := new GCMarkStack(segmentWords, allowance);
      m_incrementalWork, m_barrierWork := incremental, barrier;
      heap, bits, memEnd := map[], map[], 0;
      this.roots, stack := roots, [];
      marking, m_markStackOverflow, garbage, hot := false, false, {}, StackBase;
      new;
      hide WellFormed, QueueExact, ItemsInGraph, Spared, Tri, GCMarkStack.Contents, GCMarkStack.Valid;
      Beginning(G());
      assert multiset(m_incrementalWork.Contents()) + multiset(m_barrierWork.Contents()) == multiset{};
    }

    static lemma Beginning(g: Graph)
      requires g.heap == map[]
      ensures WellFormed(g, map[]) && QueueExact(map[], multiset{}, {}) && ItemsInGraph(g, [])
      ensures Spared(g, map[], [], {}) && Tri(g, map[], multiset{}, {}, {})
    {
    }

    // ----- Pushing

    /** Push_GCObject: a refused object loses its queued bit again and the overflow is recorded. */
    method Push_GCObject(o: Obj) returns (ghost pushed: bool)
      requires Holding({o}) && o in bits && bits[o].queued
      modifies this`bits, this`m_markStackOverflow, m_incrementalWork
      ensures Holding({})
      ensures old(m_markStackOverflow) ==> m_markStackOverflow
      ensures pushed ==> bits == old(bits) && m_markStackOverflow == old(m_markStackOverflow)
      ensures pushed ==> m_incrementalWork.Contents() == old(m_incrementalWork.Contents()) + [GCObject(o)]
      ensures !pushed ==> bits == old(bits)[o := GCBits(false, false)] && m_markStackOverflow
      ensures !pushed ==> m_incrementalWork.Contents() == old(m_incrementalWork.Contents())
      ensures !pushed ==> TotalWords(m_incrementalWork.Contents()) + 1 > m_incrementalWork.segmentWords
      ensures m_incrementalWork.allowance == 1 ==>
                TotalWords(m_incrementalWork.Contents()) <= m_incrementalWork.segmentWords
    {
      hide QueueExact, WellFormed, Spared, ItemsInGraph, GCMarkStack.Contents, GCMarkStack.Valid, TotalWords;
      PushQueued(bits, m_incrementalWork.Contents(), multiset(m_barrierWork.Contents()), o);
      ItemsMore(G(), m_incrementalWork.Contents(), GCObject(o));
      SparedMore(G(), bits, m_incrementalWork.Contents(), GCObject(o), garbage);
      var ok := m_incrementalWork.Push(GCObject(o));
      pushed := ok;
      if !ok {
        SignalMarkStackOverflow_GCObject(o);
      }
    }

    method SignalMarkStackOverflow_GCObject(o: Obj)
      requires Holding({o}) && o in bits && bits[o].queued
      modifies this`bits, this`m_markStackOverflow
      ensures Holding({}) && m_markStackOverflow
      ensures bits == old(bits)[o := GCBits(false, false)]
    {
      hide QueueExact, WellFormed, Spared, GCMarkStack.Contents, GCMarkStack.Valid, TotalWords;
      var cleared := bits[o].(queued := false);   // ClearQueued
      NotBoth(G(), bits, o);
      Recoloured(G(), bits, Work(), o, cleared);
      SparedRecoloured(G(), bits, m_incrementalWork.Contents(), o, cleared, garbage);
      bits := bits[o := cleared];
      m_markStackOverflow := true;
    }

    /** Push a chunk or a protector; a refused item is dropped and the overflow is recorded. */
    method Push_NonGCObject(item: WorkItem, ghost hand: set<Obj>)
      requires Holding(hand) && !item.GCObject?
      requires item.Chunk? ==> HasBase(G(), item.base) && item.from <= |Fields(G(), item.base)|
      requires item.Chunk? ==> Outside(item.base, garbage)
      modifies this`m_markStackOverflow, m_incrementalWork
      ensures Holding(hand)
      ensures Scans(G(), m_incrementalWork.segmentWords, old(Now()), Now(), {}, Words(item), ItemWeight(G(), item))
      ensures m_markStackOverflow || item in Work()
      ensures m_incrementalWork.allowance == 1 ==> Now() == PushOn(m_incrementalWork.segmentWords, old(Now()), item)
    {
      hide QueueExact, WellFormed, Spared, Scans, ItemsInGraph, TotalWords, GCMarkStack.Contents, GCMarkStack.Valid;
      ItemsMore(G(), m_incrementalWork.Contents(), item);
      SparedMore(G(), bits, m_incrementalWork.Contents(), item, garbage);
      PushInert(bits, m_incrementalWork.Contents(), multiset(m_barrierWork.Contents()), item, hand);
      ScansPushed(G(), m_incrementalWork.segmentWords, Now(), item);
      OnePushed(m_incrementalWork.Contents(), item);
      var ok := m_incrementalWork.Push(item);
      if !ok {
        ScansRefused(G(), m_incrementalWork.segmentWords, Now(), item);
        SignalMarkStackOverflow_NonGCObject(hand);
      }
    }

    lemma OnePushed(items: seq<WorkItem>, item: WorkItem)
      ensures TotalWords(items + [item]) == TotalWords(items) + Words(item)
    {
      assert (items + [item])[..|items|] == items;
    }

    method SignalMarkStackOverflow_NonGCObject(ghost hand: set<Obj>)
      requires Holding(hand)
      modifies this`m_markStackOverflow
      ensures Holding(hand) && m_markStackOverflow
    {
      hide QueueExact, WellFormed, Spared, ItemsInGraph, GCMarkStack.Contents, GCMarkStack.Valid;
      m_markStackOverflow := true;
    }

    // ----- Tracing

    method TracePointer(w: Word)
      requires Valid() && w !in garbage
      modifies this`bits, this`m_markStackOverflow, m_incrementalWork
      ensures Valid() && Traces(G(), m_incrementalWork.segmentWords, old(Now()), Now())
      ensures m_markStackOverflow || !White(bits, w)
      ensures w !in heap || !old(White(bits, w)) ==> Now() == old(Now())
      ensures w in heap && old(White(bits, w)) ==>
                if heap[w].containsPointers then Queued(old(Now()), Now(), w)
                else Now() == old(Now()).(b := old(bits)[w := GCBits(true, false)])
      ensures w in heap && heap[w].containsPointers ==> old(White(bits, w) && OutOfRoom()) ==>
                Now() == old(Now()).(overflow := true)
    {
      hide Holding, Scans, GCMarkStack.Contents, GCMarkStack.Valid, OutOfRoom, Queued;
      Domain({});
      TracesNothing(G(), m_incrementalWork.segmentWords, Now());
      if w in heap && !bits[w].mark && !bits[w].queued {
        if heap[w].containsPointers {
          Queue(w);
        } else {
          MarkLeaf(w);
        }
      }
    }

    /** There is one segment only, and it is full. */
    ghost predicate OutOfRoom()
      reads this, m_incrementalWork, m_barrierWork
    {
      m_incrementalWork.allowance == 1 && Full(m_incrementalWork.segmentWords, Now())
    }

    /** The object is queued, on top of the mark stack, or else it stays white and the overflow is signalled, when as
        many words as a segment has are in use. */
    ghost predicate Queued(v: View, v': View, o: Obj) {
      || v' == v.(b := v.b[o := GCBits(false, true)], items := v.items + [GCObject(o)])
      || (v' == v.(overflow := true) && TotalWords(v.items) + 1 > m_incrementalWork.segmentWords)
    }

    /** TracePointer, for a white object that contains pointers. */
    method Queue(o: Obj)
      requires Valid() && White(bits, o) && o !in garbage
      modifies this`bits, this`m_markStackOverflow, m_incrementalWork
      ensures Valid() && Traces(G(), m_incrementalWork.segmentWords, old(Now()), Now())
      ensures m_markStackOverflow || !White(bits, o)
      ensures Queued(old(Now()), Now(), o)
      ensures old(OutOfRoom()) ==> Now() == old(Now()).(overflow := true)
    {
      hide QueueExact, WellFormed, Scans, ItemsInGraph, TotalWords, GCMarkStack.Contents, GCMarkStack.Valid;
      ghost var v := Now();
      OnePushed(m_incrementalWork.Contents(), GCObject(o));
      TakeInHand(o, GCBits(false, true));
      var pushed := Push_GCObject(o);
      if pushed {
        TracesGrey(G(), m_incrementalWork.segmentWords, v, o);
      } else {
        assert bits == v.b;
        TracesRefused(G(), m_incrementalWork.segmentWords, v);
      }
    }

    /** TracePointer, for a white object without pointers: it goes right to black. */
    method MarkLeaf(o: Obj)
      requires Valid() && White(bits, o) && o !in garbage && Fields(G(), ObjectBase(o)) == []
      modifies this`bits
      ensures Valid() && Traces(G(), m_incrementalWork.segmentWords, old(Now()), Now())
      ensures !White(bits, o)
      ensures Now() == old(Now()).(b := old(bits)[o := GCBits(true, false)])
    {
      hide QueueExact, WellFormed, Scans, ItemsInGraph, GCMarkStack.Contents, GCMarkStack.Valid;
      ScansMarked(G(), m_incrementalWork.segmentWords, Now(), o, {});
      TakeInHand(o, GCBits(true, false));
    }

    /** Trace the words from 'from' up to 'to' of an object, a root or the stack. */
    method TraceWords(base: Base, from: nat, to: nat)
      requires Valid() && HasBase(G(), base) && from <= to <= |Fields(G(), base)|
      requires Outside(base, garbage)
      modifies this`bits, this`m_markStackOverflow, m_incrementalWork
      ensures Valid() && Traces(G(), m_incrementalWork.segmentWords, old(Now()), Now())
      ensures m_markStackOverflow || ClosedRange(G(), bits, Work(), base, from, to)
      ensures old(Starves() && (base == hot && from == 0 < to ==> OutOfRoom())) ==>
                Now() == if base == hot && from == 0 < to then old(Now()).(overflow := true) else old(Now())
    {
      hide Holding, Scans, Traces, GCMarkStack.Contents, GCMarkStack.Valid, TriColour.Work, Full, Starving, ClosedRange,
           Fields, White;
      ghost var seg := m_incrementalWork.segmentWords;
      ghost var starves := Starves() && (base == hot && from == 0 < to ==> OutOfRoom());
      ghost var v0 := Now();
      TracesNone(v0);
      NothingClosed(base, from);
      var p := from;
      while p < to
        invariant from <= p <= to
        invariant Valid() && G() == old(G()) && Traces(G(), seg, v0, Now())
        invariant m_markStackOverflow || ClosedRange(G(), bits, Work(), base, from, p)
        invariant starves ==> Starves() && Now() == if base == hot && from == 0 < p then v0.(overflow := true) else v0
      {
        TraceField(base, from, p, v0);
        p := p + 1;
      }
    }

    lemma TracesNone(v: View)
      ensures Traces(G(), m_incrementalWork.segmentWords, v, v)
    {
    }

    /** The body of that loop. */
    method TraceField(base: Base, ghost from: nat, p: nat, ghost v0: View)
      requires from <= p < |Fields(G(), base)|
      requires m_markStackOverflow || ClosedRange(G(), bits, Work(), base, from, p)
      requires HasBase(G(), base) && Outside(base, garbage) && Valid()
      requires Traces(G(), m_incrementalWork.segmentWords, v0, Now())
      modifies this`bits, this`m_markStackOverflow, m_incrementalWork
      ensures Valid() && Traces(G(), m_incrementalWork.segmentWords, v0, Now())
      ensures m_markStackOverflow || ClosedRange(G(), bits, Work(), base, from, p + 1)
      ensures old(Starves() && (base == hot && p == 0 ==> OutOfRoom())) ==>
                Now() == if base == hot && p == 0 then old(Now()).(overflow := true) else old(Now())
    {
      hide Holding, Scans, GCMarkStack.Contents, GCMarkStack.Valid, TriColour.Work, OutOfRoom, Starving, ClosedRange,
           Fields;
      ghost var v, seg := Now(), m_incrementalWork.segmentWords;
      NotGarbage(base, p);
      WordStarves(base, p);
      TracePointer(FieldAt(base, p));
      TracesCompose(G(), seg, v0, v, Now());
      ScansKeepRange(G(), seg, v, Now(), {}, 0, 0, base, from, p);
      OneMoreClosed(base, from, p);
    }

    lemma NothingClosed(base: Base, from: nat)
      requires from <= |Fields(G(), base)|
      ensures ClosedRange(G(), bits, Work(), base, from, from)
    {
    }

    lemma OneMoreClosed(base: Base, from: nat, p: nat)
      requires from <= p < |Fields(G(), base)|
      requires m_markStackOverflow || ClosedRange(G(), bits, Work(), base, from, p)
      requires m_markStackOverflow || !White(bits, FieldAt(base, p))
      ensures m_markStackOverflow || ClosedRange(G(), bits, Work(), base, from, p + 1)
    {
    }

    lemma WordStarves(base: Base, i: nat)
      requires i < |Fields(G(), base)|
      ensures Starves() && (base != hot || i != 0) ==> FieldAt(base, i) !in heap
      ensures Starves() && base == hot && i == 0 ==>
                var w := FieldAt(base, i); w in heap && heap[w].containsPointers && White(bits, w)
    {
    }

    function FieldAt(base: Base, i: nat): Word
      requires i < |Fields(G(), base)|
      reads this
    {
      match base
      case ObjectBase(o) => heap[o].fields[i]
      case RootBase(r) => roots[r].fields[i]
      case StackBase => stack[i]
    }

    // ----- Scanning work items

    /** The words of stack space that scanning a range takes for its tail. */
    ghost function SplitWords(base: Base, from: nat, isHead: bool): nat
      reads `heap, `roots, `stack
    {
      if |Fields(G(), base)| > from + splitThreshold then if isHead then 6 else 4 else 0
    }

    /** The work that is left in the tail. */
    ghost function SplitWeight(base: Base, from: nat, isHead: bool): nat
      reads `heap, `roots, `stack
    {
      if |Fields(G(), base)| > from + splitThreshold
      then |Fields(G(), base)| - from - splitThreshold + if isHead then 2 else 1
      else 0
    }

    /** MarkItem_ConservativeOrNonGCObject: scan a range up to the split threshold and push the rest;
        'isHead' if this is a GC object itself, which gets its mark here. */
    method MarkItem_ConservativeOrNonGCObject(base: Base, from: nat, isHead: bool)
      requires HasBase(G(), base) && from <= |Fields(G(), base)|
      requires isHead ==> base.ObjectBase? && from == 0
      requires Holding(if isHead then {base.obj} else {})
      requires Outside(base, garbage)
      modifies this`bits, this`m_markStackOverflow, m_incrementalWork
      ensures Valid()
      ensures Scans(G(), m_incrementalWork.segmentWords, old(Now()), Now(), if isHead then {base.obj} else {},
                    SplitWords(base, from, isHead), SplitWeight(base, from, isHead))
      ensures m_markStackOverflow || ClosedRange(G(), bits, Work(), base, from, |Fields(G(), base)|)
      ensures isHead ==> base.obj in bits && bits[base.obj].mark
      ensures
        !isHead &&
        old(Starves() && Refused(G(), splitThreshold, m_incrementalWork.segmentWords, Now(), base, from, hot)) ==>
                Now() == ScanEffect(G(), splitThreshold, m_incrementalWork.segmentWords, old(Now()), base, from, hot)
    {
      hide Holding, Scans, GCMarkStack.Contents, GCMarkStack.Valid, TriColour.Work, ClosedRange, Fields, Starving, Full,
           SplitEffect, ScanEffect, Refused;
      ghost var v0 := Now();
      var end := SplitAndMark(base, from, isHead);
      SplitStarves(v0, base, from, end);
      TraceHead(base, from, end, v0, if isHead then {base.obj} else {}, SplitWords(base, from, isHead),
                SplitWeight(base, from, isHead));
    }

    /** The part of that before the words are scanned. */
    method SplitAndMark(base: Base, from: nat, isHead: bool) returns (end: nat)
      requires HasBase(G(), base) && from <= |Fields(G(), base)|
      requires isHead ==> base.ObjectBase? && from == 0
      requires Holding(if isHead then {base.obj} else {})
      requires Outside(base, garbage)
      modifies this`bits, this`m_markStackOverflow, m_incrementalWork
      ensures Valid() && 0 < splitThreshold && from <= end <= |Fields(G(), base)|
      ensures end == if |Fields(G(), base)| > from + splitThreshold then from + splitThreshold else |Fields(G(), base)|
      ensures Scans(G(), m_incrementalWork.segmentWords, old(Now()), Now(), if isHead then {base.obj} else {},
                    SplitWords(base, from, isHead), SplitWeight(base, from, isHead))
      ensures end < |Fields(G(), base)| ==> m_markStackOverflow || Chunk(base, end) in Work()
      ensures isHead ==> base.obj in bits && bits[base.obj].mark
      ensures !isHead && m_incrementalWork.allowance == 1 ==>
                Now() == SplitEffect(G(), splitThreshold, m_incrementalWork.segmentWords, old(Now()), base, from)
    {
      hide Holding, Scans, GCMarkStack.Contents, GCMarkStack.Valid, TriColour.Work, Fields, SplitEffect;
      Domain(if isHead then {base.obj} else {});
      ghost var v0 := Now();
      end := SplitIfLarge(base, from, isHead);
      if isHead {
        ghost var v := Now();
        SetMark(base.obj);
        AfterSplit(v0, v, Now(), base, from, end);
      }
    }

    /** The words up to the pending tail, if any. */
    method TraceHead(base: Base, from: nat, end: nat, ghost v0: View, ghost novel: set<Obj>, ghost words: nat,
                     ghost extra: nat)
      requires Valid() && HasBase(G(), base) && from <= end <= |Fields(G(), base)| && Outside(base, garbage)
      requires Scans(G(), m_incrementalWork.segmentWords, v0, Now(), novel, words, extra)
      requires end < |Fields(G(), base)| ==> m_markStackOverflow || Chunk(base, end) in Work()
      modifies this`bits, this`m_markStackOverflow, m_incrementalWork
      ensures Valid()
      ensures Scans(G(), m_incrementalWork.segmentWords, v0, Now(), novel, words, extra)
      ensures m_markStackOverflow || ClosedRange(G(), bits, Work(), base, from, |Fields(G(), base)|)
      ensures forall o :: o in old(bits) && old(bits[o].mark) ==> o in bits && bits[o].mark
      ensures old(Starves() && (base == hot && from == 0 < end ==> OutOfRoom())) ==>
                Now() == if base == hot && from == 0 < end then old(Now()).(overflow := true) else old(Now())
    {
      hide Holding, Scans, GCMarkStack.Contents, GCMarkStack.Valid, TriColour.Work, ClosedRange, Fields, Starves,
           OutOfRoom;
      ghost var v1 := Now();
      TraceWords(base, from, end);
      AfterTrace(v0, v1, Now(), base, from, end, novel, words, extra);
    }

    lemma SplitStarves(v: View, base: Base, from: nat, end: nat)
      requires from <= |Fields(G(), base)| && 0 < splitThreshold
      requires end == if |Fields(G(), base)| > from + splitThreshold then from + splitThreshold else |Fields(G(), base)|
      ensures var seg := m_incrementalWork.segmentWords;
        var v1 := SplitEffect(G(), splitThreshold, seg, v, base, from);
        && v1.b == v.b
        && (Refused(G(), splitThreshold, seg, v, base, from, hot) && base == hot && from == 0 < end ==> Full(seg, v1))
        && ScanEffect(G(), splitThreshold, seg, v, base, from, hot)
             == if base == hot && from == 0 < end then v1.(overflow := true) else v1
    {
    }

    lemma AfterTrace(v0: View, v1: View, v2: View, base: Base, from: nat, end: nat, novel: set<Obj>,
                     words: nat, extra: nat)
      requires from <= end <= |Fields(G(), base)|
      requires Scans(G(), m_incrementalWork.segmentWords, v0, v1, novel, words, extra)
      requires end < |Fields(G(), base)| ==> v1.overflow || Chunk(base, end) in TriColour.Work(v1)
      requires Traces(G(), m_incrementalWork.segmentWords, v1, v2)
      requires v2.overflow || ClosedRange(G(), v2.b, TriColour.Work(v2), base, from, end)
      ensures Scans(G(), m_incrementalWork.segmentWords, v0, v2, novel, words, extra)
      ensures v2.overflow || ClosedRange(G(), v2.b, TriColour.Work(v2), base, from, |Fields(G(), base)|)
      ensures forall o :: o in v1.b && v1.b[o].mark ==> o in v2.b && v2.b[o].mark
    {
      ScansKeepMarks(G(), m_incrementalWork.segmentWords, v1, v2, {}, 0, 0);
      if end < |Fields(G(), base)| && !v2.overflow {
        RangeWithTail(G(), v2.b, TriColour.Work(v2), base, from, end);
      }
      assert novel + {} == novel;
      ScansCompose(G(), m_incrementalWork.segmentWords, v0, v1, v2, novel, {}, words, 0, extra, 0);
    }

    lemma AfterSplit(v0: View, v: View, v': View, base: Base, from: nat, end: nat)
      requires base.ObjectBase?
      requires Scans(G(), m_incrementalWork.segmentWords, v0, v, {},
                     SplitWords(base, from, true), SplitWeight(base, from, true))
      requires Scans(G(), m_incrementalWork.segmentWords, v, v', {base.obj}, 0, 0)
      ensures Scans(G(), m_incrementalWork.segmentWords, v0, v', {base.obj},
                    SplitWords(base, from, true), SplitWeight(base, from, true))
      ensures Chunk(base, end) in TriColour.Work(v) ==> Chunk(base, end) in TriColour.Work(v')
      ensures v.overflow ==> v'.overflow
    {
      assert {} + {base.obj} == {base.obj};
      ScansCompose(G(), m_incrementalWork.segmentWords, v0, v, v', {}, {base.obj}, SplitWords(base, from, true), 0,
                   SplitWeight(base, from, true), 0);
    }

    /** Split the range if it is too large to be scanned at once. */
    method SplitIfLarge(base: Base, from: nat, isHead: bool) returns (end: nat)
      requires HasBase(G(), base) && from <= |Fields(G(), base)|
      requires isHead ==> base.ObjectBase? && from == 0
      requires Holding(if isHead then {base.obj} else {})
      requires Outside(base, garbage)
      modifies this`m_markStackOverflow, m_incrementalWork
      ensures Holding(if isHead then {base.obj} else {})
      ensures Scans(G(), m_incrementalWork.segmentWords, old(Now()), Now(), {},
                    SplitWords(base, from, isHead), SplitWeight(base, from, isHead))
      ensures from <= end <= |Fields(G(), base)|
      ensures end == if |Fields(G(), base)| > from + splitThreshold then from + splitThreshold else |Fields(G(), base)|
      ensures end < |Fields(G(), base)| ==> m_markStackOverflow || Chunk(base, end) in Work()
      ensures !isHead && m_incrementalWork.allowance == 1 ==>
                Now() == SplitEffect(G(), splitThreshold, m_incrementalWork.segmentWords, old(Now()), base, from)
    {
      hide Holding, Scans, GCMarkStack.Contents, GCMarkStack.Valid, TriColour.Work;
      end := |Fields(G(), base)|;
      if end - from > splitThreshold {
        SplitItem_ConservativeOrNonGCObject(base, from, isHead);
        end := from + splitThreshold;
      } else {
        TracesNothing(G(), m_incrementalWork.segmentWords, Now());
      }
    }

    /** Push what is beyond the split threshold, below it a protector if this is a GC object. */
    method SplitItem_ConservativeOrNonGCObject(base: Base, from: nat, isHead: bool)
      requires HasBase(G(), base) && from + splitThreshold < |Fields(G(), base)|
      requires isHead ==> base.ObjectBase? && from == 0
      requires Holding(if isHead then {base.obj} else {})
      requires Outside(base, garbage)
      modifies this`m_markStackOverflow, m_incrementalWork
      ensures Holding(if isHead then {base.obj} else {})
      ensures Scans(G(), m_incrementalWork.segmentWords, old(Now()), Now(), {},
                    SplitWords(base, from, isHead), SplitWeight(base, from, isHead))
      ensures m_markStackOverflow || Chunk(base, from + splitThreshold) in Work()
      ensures !isHead && m_incrementalWork.allowance == 1 ==>
                Now() == PushOn(m_incrementalWork.segmentWords, old(Now()), Chunk(base, from + splitThreshold))
    {
      hide Holding, Scans, GCMarkStack.Contents, GCMarkStack.Valid, TriColour.Work, SplitWords, SplitWeight, ItemWeight,
           Words, Fields, PushOn, HasBase, Outside;
      ghost var hand: set<Obj> := if isHead then {base.obj} else {};
      ghost var seg := m_incrementalWork.segmentWords;
      SplitAmounts(base, from, isHead);
      if isHead {
        Push_NonGCObject(Protector(base), hand);
      }
      ghost var v := Now();
      Push_NonGCObject(Chunk(base, from + splitThreshold), hand);
      ghost var none: set<Obj> := {};
      assert none + none == none;
      if isHead {
        ScansCompose(G(), seg, old(Now()), v, Now(), {}, {}, 2, 4, 1,
            ItemWeight(G(), Chunk(base, from + splitThreshold)));
      }
    }

    lemma SplitAmounts(base: Base, from: nat, isHead: bool)
      requires from + splitThreshold < |Fields(G(), base)|
      ensures var tail := Chunk(base, from + splitThreshold);
        && Words(tail) == 4 && SplitWords(base, from, isHead) == Words(tail) + (if isHead then 2 else 0)
        && SplitWeight(base, from, isHead) == ItemWeight(G(), tail) + if isHead then 1 else 0
      ensures Words(Protector(base)) == 2 && ItemWeight(G(), Protector(base)) == 1
    {
    }

    method SetMark(o: Obj)
      requires Holding({o}) && o in bits && o !in garbage
      modifies this`bits
      ensures Valid() && Black(bits, o)
      ensures Scans(G(), m_incrementalWork.segmentWords, old(Now()), Now(), {o}, 0, 0)
    {
      hide QueueExact, WellFormed, Spared, Scans, ItemsInGraph, GCMarkStack.Contents, GCMarkStack.Valid;
      var c := bits[o].(mark := true, queued := false);
      ScansMarked(G(), m_incrementalWork.segmentWords, Now(), o, {o});
      Recoloured(G(), bits, Work(), o, c);
      SparedRecoloured(G(), bits, m_incrementalWork.Contents(), o, c, garbage);
      bits := bits[o := c];
    }

    lemma NotGarbage(base: Base, i: nat)
      requires Valid() && Outside(base, garbage) && i < |Fields(G(), base)|
      ensures FieldAt(base, i) !in garbage
    {
      SparedField(G(), bits, m_incrementalWork.Contents(), base, i, garbage);
    }

    /** MarkItem_GCObject: mark an object and trace it, whether it was marked before or not; exactly
        traced objects are never split. */
    method MarkItem_GCObject(o: Obj)
      requires Holding({o}) && o in heap && o !in garbage
      modifies this`bits, this`m_markStackOverflow, m_incrementalWork
      ensures Valid() && o in bits && bits[o].mark
      ensures Scans(G(), m_incrementalWork.segmentWords, old(Now()), Now(), {o}, HeadWords(o), HeadWeight(o))
      ensures m_markStackOverflow || Closed(G(), bits, Work(), ObjectBase(o))
    {
      hide Holding, Scans, GCMarkStack.Contents, GCMarkStack.Valid, TriColour.Work, ClosedRange;
      Domain({o});
      if heap[o].exact {
        ghost var v0 := Now();
        SetMark(o);
        ghost var v1 := Now();
        TraceWords(ObjectBase(o), 0, |heap[o].fields|);
        AfterTrace(v0, v1, Now(), ObjectBase(o), 0, |heap[o].fields|, {o}, 0, 0);
      } else {
        MarkItem_ConservativeOrNonGCObject(ObjectBase(o), 0, true);
      }
    }

    ghost function HeadWords(o: Obj): nat
      reads `heap, `roots, `stack
    {
      if o in heap && heap[o].exact then 0 else SplitWords(ObjectBase(o), 0, true)
    }

    ghost function HeadWeight(o: Obj): nat
      reads `heap, `roots, `stack
    {
      if o in heap && heap[o].exact then 0 else SplitWeight(ObjectBase(o), 0, true)
    }

    // ----- Driving the marker

    /** Pop an item; an object item goes into the marker's hand. */
    method PopItem() returns (item: WorkItem)
      requires Valid() && m_incrementalWork.Contents() != []
      modifies m_incrementalWork
      ensures Holding(if item.GCObject? then {item.obj} else {})
      ensures item.GCObject? ==> item.obj in heap && item.obj in bits && bits[item.obj] == GCBits(false, true)
      ensures item.GCObject? ==> item.obj !in garbage
      ensures item.Chunk? ==> HasBase(G(), item.base) && item.from <= |Fields(G(), item.base)|
      ensures item.Chunk? ==> Outside(item.base, garbage)
      ensures old(m_incrementalWork.Contents()) == m_incrementalWork.Contents() + [item]
      ensures Now() == old(Now()).(items := m_incrementalWork.Contents())
    {
      hide QueueExact, WellFormed, Spared, GCMarkStack.Contents, GCMarkStack.Valid;
      Domain({});
      SparedNotWhite(G(), bits, m_incrementalWork.Contents(), garbage);
      item := m_incrementalWork.Pop();
      assert item in old(m_incrementalWork.Contents());
      ghost var items, rest := m_incrementalWork.Contents(), multiset(m_barrierWork.Contents());
      SparedLess(G(), bits, items, item, garbage);
      if item.GCObject? {
        PopQueued(bits, items, rest, item.obj);
        NotBoth(G(), bits, item.obj);
      } else {
        PopInert(bits, items, rest, item, {});
      }
    }

    /** The body of Mark's loop: pop one item and handle it. */
    method MarkOneItem(ghost excl: set<Obj>, ghost scanned: set<Base>, ghost u0: set<Obj>)
      requires Valid() && m_incrementalWork.Contents() != []
      modifies this`bits, this`m_markStackOverflow, m_incrementalWork
      ensures Valid()
      ensures Marks(G(), m_incrementalWork.segmentWords, old(Now()), Now(), excl, scanned, u0)
      ensures Lighter(G(), old(Now()), Now())
      ensures old(Starves() && PopRefused(G(), splitThreshold, m_incrementalWork.segmentWords, Now(), hot)) ==>
                Now() == PopEffect(G(), splitThreshold, m_incrementalWork.segmentWords, old(Now()), hot)
    {
      hide Holding, Scans, GCMarkStack.Contents, GCMarkStack.Valid, TriColour.Work, ClosedRange, Marks, Lighter,
           Starving,
           Refused, ScanEffect;
      ghost var v, seg := Now(), m_incrementalWork.segmentWords;
      Domain({});
      var item := PopItem();
      ghost var items := m_incrementalWork.Contents();
      match item
      case GCObject(o) =>
        MarkItem_GCObject(o);
        ObjectDone(G(), seg, v, items, o, Now(), HeadWords(o), HeadWeight(o), excl, scanned, u0);
      case Chunk(base, from) =>
        MarkItem_ConservativeOrNonGCObject(base, from, false);
        ChunkDone(G(), seg, v, items, base, from, Now(), SplitWords(base, from, false),
                  SplitWeight(base, from, false), excl, scanned, u0);
      case Protector(base) =>
        // UnprotectAgainstFree, or forget the root's sentinel
        ProtectorDone(G(), seg, v, items, base, excl, scanned, u0);
    }

    /** Mark(): mark until the stack is empty. */
    method Mark(ghost excl: set<Obj>, ghost scanned: set<Base>, ghost u0: set<Obj>)
      requires Valid()
      modifies this`bits, this`m_markStackOverflow, m_incrementalWork
      ensures Valid() && m_incrementalWork.Contents() == []
      ensures Marks(G(), m_incrementalWork.segmentWords, old(Now()), Now(), excl, scanned, u0)
      ensures old(Starves() && Calm(m_incrementalWork.Contents(), hot)) ==> Now() == old(Now()).(items := [])
      ensures old(m_incrementalWork.Contents()) == [] ==> Now() == old(Now())
      ensures old(Starves() && Dooms()) ==> Now() == old(Now()).(items := [], overflow := true)
    {
      hide Holding, GCMarkStack.Contents, GCMarkStack.Valid, Marks, Load, Unmarked, Starving, Calm, Doomed, PopEffect,
           PopRefused;
      Stacks({});
      MarksNothing(Now(), excl, scanned, u0);
      ghost var v0 := Now();
      DoomsNotEmpty();
      while !m_incrementalWork.IsEmpty()
        invariant Valid() && m_incrementalWork.Valid()
        invariant old(Starves() && Calm(m_incrementalWork.Contents(), hot)) ==>
                    Calm(m_incrementalWork.Contents(), hot) && Now() == v0.(items := m_incrementalWork.Contents())
        invariant v0.items == [] ==> Now() == v0
        invariant old(Starves() && Dooms()) ==>
                    || Now() == v0
                    || (Calm(m_incrementalWork.Contents(), hot) &&
                        Now() == v0.(items := m_incrementalWork.Contents(), overflow := true))
        invariant Marks(G(), m_incrementalWork.segmentWords, old(Now()), Now(), excl, scanned, u0)
        decreases Unmarked(bits), Load(G(), bits, m_incrementalWork.Contents())
      {
        ghost var v := Now();
        m_incrementalWork.SingleSegment();
        OneItemStarves();
        MarkOneItem(excl, scanned, u0);
        Stacks({});
        MarksCompose(G(), m_incrementalWork.segmentWords, old(Now()), v, Now(), excl, scanned, u0);
      }
    }

    /** Whatever is marked now, no object will be. */
    ghost predicate Dormant()
      reads this, m_incrementalWork, m_barrierWork
    {
      Starves() && Calm(m_incrementalWork.Contents(), hot) && m_barrierWork.Contents() == []
    }

    /** The mark stack is full, and 'hot' is next. */
    ghost predicate Dooms()
      reads this, m_incrementalWork
    {
      Doomed(G(), splitThreshold, m_incrementalWork.segmentWords, m_incrementalWork.Contents(), hot)
    }

    lemma DoomsNotEmpty()
      ensures Dooms() ==> m_incrementalWork.Contents() != [] && !Calm(m_incrementalWork.Contents(), hot)
    {
    }

    lemma OneItemStarves()
      requires m_incrementalWork.Contents() != [] && 0 < splitThreshold
      requires m_incrementalWork.allowance == 1 ==>
                 TotalWords(m_incrementalWork.Contents()) <= m_incrementalWork.segmentWords
      ensures Dooms() ==> !Calm(m_incrementalWork.Contents(), hot)
      ensures var v, seg := Now(), m_incrementalWork.segmentWords;
        m_incrementalWork.allowance == 1 && (Calm(v.items, hot) || Dooms()) ==>
          && PopRefused(G(), splitThreshold, seg, v, hot)
          && var v' := PopEffect(G(), splitThreshold, seg, v, hot);
             && Calm(v'.items, hot)
             && v' == v.(items := v'.items, overflow := if Calm(v.items, hot) then v.overflow else true)
    {
      hide PopEffect, PopRefused, Calm, Doomed;
      var v, seg := Now(), m_incrementalWork.segmentWords;
      DoomsNotEmpty();
      if m_incrementalWork.allowance == 1 {
        if Calm(v.items, hot) {
          PopCalm(G(), splitThreshold, seg, v, hot);
        } else if Dooms() {
          PopDoomed(G(), splitThreshold, seg, v, hot);
        }
      }
    }

    /** Mark(count): mark at most 'count' items. */
    method MarkSome(count: nat, ghost scanned: set<Base>)
      requires Valid()
      modifies this`bits, this`m_markStackOverflow, m_incrementalWork
      ensures Valid()
      ensures Marks(G(), m_incrementalWork.segmentWords, old(Now()), Now(), {}, scanned, {})
      ensures NoFarther(G(), old(Now()), Now())
      ensures 0 < count && old(m_incrementalWork.Contents()) != [] ==> Closer(G(), old(Now()), Now())
      ensures old(Dormant()) ==> Dormant()
    {
      hide Holding, GCMarkStack.Contents, GCMarkStack.Valid, Marks, Closer, NoFarther, Lighter, Starving, Calm,
           PopEffect,
           PopRefused;
      Stacks({});
      MarksNothing(Now(), {}, scanned, {});
      AsFar(Now());
      var i := 0;
      while i < count && !m_incrementalWork.IsEmpty()
        invariant Valid() && m_incrementalWork.Valid()
        invariant Marks(G(), m_incrementalWork.segmentWords, old(Now()), Now(), {}, scanned, {})
        invariant NoFarther(G(), old(Now()), Now()) && (i > 0 ==> Closer(G(), old(Now()), Now()))
        invariant i == 0 ==> Now() == old(Now())
        invariant old(Dormant()) ==> Dormant()
      {
        ghost var v := Now();
        m_incrementalWork.SingleSegment();
        OneItemStarves();
        MarkOneItem({}, scanned, {});
        Stacks({});
        MarksRest(v, Now(), {}, scanned, {});
        LighterIsCloser(G(), v, Now());
        NoFartherBoth(G(), old(Now()), v, Now());
        MarksCompose(G(), m_incrementalWork.segmentWords, old(Now()), v, Now(), {}, scanned, {});
        i := i + 1;
      }
    }

    lemma MarksNothing(v: View, excl: set<Obj>, scanned: set<Base>, u0: set<Obj>)
      ensures Marks(G(), m_incrementalWork.segmentWords, v, v, excl, scanned, u0)
    {
    }

    lemma MarksRest(v: View, v': View, excl: set<Obj>, scanned: set<Base>, u0: set<Obj>)
      requires Marks(G(), m_incrementalWork.segmentWords, v, v', excl, scanned, u0)
      ensures v'.rest == v.rest
    {
    }

    lemma AsFar(v: View)
      ensures NoFarther(G(), v, v)
    {
    }

    lemma Stacks(hand: set<Obj>)
      requires Holding(hand)
      ensures m_incrementalWork.Valid() && m_barrierWork.Valid() && m_incrementalWork != m_barrierWork
      ensures m_incrementalWork.segmentWords == m_barrierWork.segmentWords >= 7 && 0 < splitThreshold
    {
    }

    // ----- Roots

    ghost function RootWords(r: nat, stackRoots: bool): nat
      requires r < |roots|
      reads `roots
    {
      TriColour.RootWords(roots[r], splitThreshold, stackRoots)
    }

    ghost function RootsWords(n: nat, stackRoots: bool): nat
      requires n <= |roots|
      reads `roots
    {
      TriColour.RootsWords(roots, splitThreshold, n, stackRoots)
    }

    /** The body of MarkRoots' loop. */
    method MarkRoot(r: nat, stackRoots: bool) returns (ghost extra: nat)
      requires Valid() && r < |roots|
      modifies this`bits, this`m_markStackOverflow, m_incrementalWork
      ensures Valid()
      ensures Scans(G(), m_incrementalWork.segmentWords, old(Now()), Now(), {}, RootWords(r, stackRoots), extra)
      ensures m_markStackOverflow || !ScansRoot(roots[r], stackRoots) || Closed(G(), bits, Work(), RootBase(r))
      ensures !ScansRoot(roots[r], stackRoots) ==> Now() == old(Now())
      ensures
        old(Starves() &&
            RootRefused(G(), splitThreshold, m_incrementalWork.segmentWords, Now(), r, stackRoots, hot)) ==>
                Now() == RootEffect(G(), splitThreshold, m_incrementalWork.segmentWords, old(Now()), r, stackRoots, hot)
    {
      hide Holding, GCMarkStack.Contents, GCMarkStack.Valid, Scans, TriColour.Work, ClosedRange, Starving, Refused,
           ScanEffect, Full;
      ghost var v := Now();
      extra := 0;
      if roots[r].exact {
        TraceWords(RootBase(r), 0, |roots[r].fields|);
      } else if roots[r].isStackMemory == stackRoots {
        if |roots[r].fields| > splitThreshold {
          extra := MarkSplitRoot(r);
        } else {
          MarkItem_ConservativeOrNonGCObject(RootBase(r), 0, false);
        }
      } else {
        TracesNothing(G(), m_incrementalWork.segmentWords, v);
      }
    }

    method MarkSplitRoot(r: nat) returns (ghost extra: nat)
      requires Valid() && r < |roots| && |roots[r].fields| > splitThreshold
      modifies this`bits, this`m_markStackOverflow, m_incrementalWork
      ensures Valid()
      ensures Scans(G(), m_incrementalWork.segmentWords, old(Now()), Now(), {}, 6, extra)
      ensures m_markStackOverflow || Closed(G(), bits, Work(), RootBase(r))
      ensures var seg := m_incrementalWork.segmentWords;
        old(Starves()
            && Refused(G(), splitThreshold, seg, PushOn(seg, Now(), Protector(RootBase(r))), RootBase(r), 0, hot)) ==>
          Now() == ScanEffect(G(), splitThreshold, seg, PushOn(seg, old(Now()), Protector(RootBase(r))),
                              RootBase(r), 0, hot)
    {
      hide Holding, GCMarkStack.Contents, GCMarkStack.Valid, Scans, TriColour.Work, ClosedRange, Starving, Refused,
           ScanEffect;
      ghost var v := Now();
      Push_NonGCObject(Protector(RootBase(r)), {});   // Push_RootProtector
      ghost var v1 := Now();
      MarkItem_ConservativeOrNonGCObject(RootBase(r), 0, false);
      extra := 1 + SplitWeight(RootBase(r), 0, false);
      ComposeTwo(v, v1, Now(), 2, 4, 1, SplitWeight(RootBase(r), 0, false));
    }

    lemma ComposeTwo(v0: View, v1: View, v2: View, w1: nat, w2: nat, e1: nat, e2: nat)
      requires Scans(G(), m_incrementalWork.segmentWords, v0, v1, {}, w1, e1)
      requires Scans(G(), m_incrementalWork.segmentWords, v1, v2, {}, w2, e2)
      ensures Scans(G(), m_incrementalWork.segmentWords, v0, v2, {}, w1 + w2, e1 + e2)
    {
      var none: set<Obj> := {};
      assert none + none == none;
      ScansCompose(G(), m_incrementalWork.segmentWords, v0, v1, v2, {}, {}, w1, w2, e1, e2);
    }

    /** What marking the first n roots does; 'deep' means that everything reachable from a root is
        marked before the next root is looked at. */
    ghost predicate RootsMarked(v: View, v': View, n: nat, deep: bool, stackRoots: bool,
                                excl: set<Obj>, scanned: set<Base>, u0: set<Obj>)
      requires n <= |roots|
      reads `heap, `roots, `stack
    {
      && MarksKept(v.b, v'.b) && v'.rest == v.rest && (v.overflow ==> v'.overflow)
      && (Inv(G(), v, excl, scanned) ==> Inv(G(), v', excl, scanned + RootsBelow(G(), n, stackRoots)))
      && (Pass(m_incrementalWork.segmentWords, v, u0) &&
          (deep || NonObjectWords(v.items) + RootsWords(n, stackRoots) + 1 <= m_incrementalWork.segmentWords) ==>
            Pass(m_incrementalWork.segmentWords, v', u0))
      && (if deep then v'.items == []
          else NonObjectWords(v'.items) <= NonObjectWords(v.items) + RootsWords(n, stackRoots) &&
               (v'.overflow || NonObjectWords(v'.items) == NonObjectWords(v.items) + RootsWords(n, stackRoots)))
    }

    lemma RootStep(v0: View, v1: View, v2: View, v3: View, n: nat, deep: bool, stackRoots: bool, extra: nat,
                   excl: set<Obj>, scanned: set<Base>, u0: set<Obj>)
      requires n < |roots| && 7 <= m_incrementalWork.segmentWords
      requires RootsMarked(v0, v1, n, deep, stackRoots, excl, scanned, u0)
      requires Scans(G(), m_incrementalWork.segmentWords, v1, v2, {}, RootWords(n, stackRoots), extra)
      requires v2.overflow || !ScansRoot(roots[n], stackRoots) || Closed(G(), v2.b, TriColour.Work(v2), RootBase(n))
      requires if deep then v3.items == [] &&
                            Marks(G(), m_incrementalWork.segmentWords, v2, v3, excl,
                                  scanned + RootsBelow(G(), n + 1, stackRoots), u0)
               else v3 == v2
      ensures RootsMarked(v0, v3, n + 1, deep, stackRoots, excl, scanned, u0)
    {
      hide Scans, Closed, HasObject, Unmarked, SplitWords, SplitWeight, TriColour.Work;
      var seg := m_incrementalWork.segmentWords;
      var below := scanned + RootsBelow(G(), n, stackRoots);
      ScansKeepMarks(G(), seg, v1, v2, {}, RootWords(n, stackRoots), extra);
      ScansKeepInv(G(), seg, v1, v2, RootWords(n, stackRoots), extra, excl, below, u0);
      assert scanned + RootsBelow(G(), n + 1, stackRoots)
          == below + if ScansRoot(roots[n], stackRoots) then {RootBase(n)} else {};
      assert Inv(G(), v2, excl, below) ==> Inv(G(), v2, excl, scanned + RootsBelow(G(), n + 1, stackRoots));
    }

    /** MarkRoots: scan the roots of one kind; exactly traced roots belong to both kinds. */
    method MarkRoots(deep: bool, stackRoots: bool, ghost excl: set<Obj>, ghost scanned: set<Base>, ghost u0: set<Obj>)
      requires Valid() && (deep ==> m_incrementalWork.Contents() == [])
      modifies this`bits, this`m_markStackOverflow, m_incrementalWork
      ensures Valid()
      ensures RootsMarked(old(Now()), Now(), |roots|, deep, stackRoots, excl, scanned, u0)
      ensures deep && old(Starves() && ColdRoots(G(), stackRoots, hot)) ==> Now() == old(Now())
      ensures var seg := m_incrementalWork.segmentWords;
        !deep && old(Starves() && RootsRefused(G(), splitThreshold, seg, Now(), stackRoots, hot)) ==>
          Now() == RootsEffect(G(), splitThreshold, seg, old(Now()), |roots|, stackRoots, hot)
    {
      hide Holding, GCMarkStack.Contents, GCMarkStack.Valid, Scans, TriColour.Work, ClosedRange, Marks, Inv, Pass,
           RootsMarked, ScansRoot, RootsBelow, Starving, RootEffect, RootRefused, ColdRoots, Calm;
      ghost var v0, seg := Now(), m_incrementalWork.segmentWords;
      Stacks({});
      NoRoots(Now(), deep, stackRoots, excl, scanned, u0);
      var r := 0;
      while r < |roots|
        invariant r <= |roots| && Valid() && G() == old(G())
        invariant RootsMarked(old(Now()), Now(), r, deep, stackRoots, excl, scanned, u0)
        invariant deep ==> m_incrementalWork.Contents() == []
        invariant deep && old(Starves() && ColdRoots(G(), stackRoots, hot)) ==> Now() == v0
        invariant !deep && old(Starves() && RootsRefused(G(), splitThreshold, seg, Now(), stackRoots, hot)) ==>
                    Now() == RootsEffect(G(), splitThreshold, seg, v0, r, stackRoots, hot) && bits == v0.b
      {
        ghost var v1 := Now();
        RootStarves(v1, r, deep, stackRoots);
        ghost var extra := MarkRoot(r, stackRoots);
        ghost var v2 := Now();
        if deep {
          Mark(excl, scanned + RootsBelow(G(), r + 1, stackRoots), u0);
        }
        RootStep(old(Now()), v1, v2, Now(), r, deep, stackRoots, extra, excl, scanned, u0);
        r := r + 1;
      }
    }

    lemma RootStarves(v: View, r: nat, deep: bool, stackRoots: bool)
      requires r < |roots| && 7 <= m_incrementalWork.segmentWords && 0 < splitThreshold && (deep ==> v.items == [])
      ensures var seg := m_incrementalWork.segmentWords;
        var v' := RootEffect(G(), splitThreshold, seg, v, r, stackRoots, hot);
        && v'.b == v.b
        && (deep && ColdRoots(G(), stackRoots, hot) ==>
              && RootRefused(G(), splitThreshold, seg, v, r, stackRoots, hot)
              && Calm(v'.items, hot) && v' == v.(items := v'.items))
    {
      hide Calm, RootEffect, RootRefused, ColdRoots;
      RootEffectKeeps(G(), splitThreshold, m_incrementalWork.segmentWords, v, r, stackRoots, hot);
      if deep && ColdRoots(G(), stackRoots, hot) {
        DeepRoot(G(), splitThreshold, m_incrementalWork.segmentWords, v, r, stackRoots, hot);
      }
    }

    lemma NoRoots(v: View, deep: bool, stackRoots: bool, excl: set<Obj>, scanned: set<Base>, u0: set<Obj>)
      requires deep ==> v.items == []
      ensures RootsMarked(v, v, 0, deep, stackRoots, excl, scanned, u0)
    {
      assert scanned + RootsBelow(G(), 0, stackRoots) == scanned;
    }

    // ----- The barrier stack

    /** CheckBarrierWork: take over one full segment if the barrier stack seems very full, unless the mark stack owns as
        many segments as it may. */
    method CheckBarrierWork(ghost scanned: set<Base>)
      requires Valid()
      modifies m_incrementalWork, m_barrierWork
      ensures Valid()
      ensures Inv(G(), old(Now()), {}, scanned) ==> Inv(G(), Now(), {}, scanned)
      ensures old(m_barrierWork.Contents()) == [] ==> Now() == old(Now()) && m_barrierWork.Contents() == []
      ensures NoFarther(G(), old(Now()), Now())
      ensures old(m_barrierWork.InactiveSegments()) < 9 ==> Now() == old(Now()) && unchanged(m_barrierWork)
      ensures old(m_barrierWork.InactiveSegments()) >= 9 ==>
                if m_barrierWork.InactiveSegments() < old(m_barrierWork.InactiveSegments())
                then m_barrierWork.InactiveSegments() == old(m_barrierWork.InactiveSegments()) - 1
                else Now() == old(Now()) && old(m_incrementalWork.InactiveSegments()) + 1 == m_incrementalWork.allowance
    {
      hide QueueExact, WellFormed, Spared, GCMarkStack.Contents, GCMarkStack.Valid, Inv, Pass, NoFarther;
      AsFar(Now());
      if m_barrierWork.Contents() == [] { m_barrierWork.NothingInactive(); }
      if m_barrierWork.InactiveSegments() < 9 { return; }
      ghost var v := Now();
      ghost var moved := m_incrementalWork.TransferOneInactiveSegmentFrom(m_barrierWork);
      SegmentMoved(v.items, moved, v.rest, multiset(m_barrierWork.Contents()));
      SparedMoved(G(), bits, moved, v.items, garbage);
      WorkMoved(G(), m_incrementalWork.segmentWords, v, Now(), moved, {}, scanned, {});
      SameRemaining(v, Now(), moved);
    }

    lemma SameRemaining(v: View, v': View, moved: seq<WorkItem>)
      requires v'.b == v.b && v'.items == moved + v.items && v'.rest + multiset(moved) == v.rest
      requires forall item :: item in moved ==> item.GCObject?
      ensures NoFarther(G(), v, v')
    {
      ObjectsWeigh(G(), moved, v.items);
    }

    lemma SegmentMoved(items: seq<WorkItem>, moved: seq<WorkItem>, rest: multiset<WorkItem>, rest': multiset<WorkItem>)
      requires rest' + multiset(moved) == rest
      requires forall item :: item in rest ==> item.GCObject?
      ensures multiset(moved + items) + rest' == multiset(items) + rest
      ensures forall item :: item in moved ==> item.GCObject?
      ensures forall item :: item in rest' ==> item.GCObject?
    {
      assert multiset(moved + items) == multiset(moved) + multiset(items);
      forall item | item in moved ensures item.GCObject? { assert item in multiset(moved); }
    }

    /** FlushBarrierWork: move all barrier work to the (empty) mark stack; if memory does not permit
        that then an overflow is signalled, but one item is moved, so that marking can progress. */
    method FlushBarrierWork(ghost excl: set<Obj>, ghost scanned: set<Base>, ghost u0: set<Obj>)
      requires Valid() && m_incrementalWork.Contents() == []
      modifies this`m_markStackOverflow, m_incrementalWork, m_barrierWork
      ensures Valid()
      ensures old(m_markStackOverflow) ==> m_markStackOverflow
      ensures Inv(G(), old(Now()), excl, scanned) ==> Inv(G(), Now(), excl, scanned)
      ensures Pass(m_incrementalWork.segmentWords, old(Now()), u0) ==> Pass(m_incrementalWork.segmentWords, Now(), u0)
      ensures m_markStackOverflow || m_barrierWork.Contents() == []
      ensures NonObjectWords(m_incrementalWork.Contents()) == 0
      ensures old(m_barrierWork.Contents()) == [] ==> Now() == old(Now()) && m_barrierWork.Contents() == []
    {
      hide QueueExact, WellFormed, Spared, GCMarkStack.Contents, GCMarkStack.Valid, Inv, Pass, NonObjectWords;
      ghost var v := Now();
      ghost var bar := m_barrierWork.Contents();
      NonObjectWordsIsTotal([]);
      ghost var moved := MoveBarrierWork();
      Moved(bar, moved, m_barrierWork.Contents());
      assert moved == moved + v.items;
      SparedMoved(G(), bits, moved, v.items, garbage);
      WorkMoved(G(), m_incrementalWork.segmentWords, v, Now(), moved, excl, scanned, u0);
    }

    method MoveBarrierWork() returns (ghost moved: seq<WorkItem>)
      requires m_incrementalWork.Valid() && m_barrierWork.Valid() && m_incrementalWork != m_barrierWork
      requires m_incrementalWork.segmentWords == m_barrierWork.segmentWords
      requires m_incrementalWork.Contents() == []
      requires forall item :: item in m_barrierWork.Contents() ==> item.GCObject?
      modifies this`m_markStackOverflow, m_incrementalWork, m_barrierWork
      ensures m_incrementalWork.Valid() && m_barrierWork.Valid()
      ensures m_incrementalWork.Contents() == moved
      ensures old(m_barrierWork.Contents()) == m_barrierWork.Contents() + moved
      ensures old(m_markStackOverflow) ==> m_markStackOverflow
      ensures m_markStackOverflow && !old(m_markStackOverflow) ==> moved != []
      ensures m_markStackOverflow || m_barrierWork.Contents() == []
    {
      hide GCMarkStack.Contents, GCMarkStack.Valid;
      moved := m_barrierWork.Contents();
      assert moved == moved + [] == [] + moved;
      var ok := m_incrementalWork.TransferEverythingFrom(m_barrierWork);
      if !ok {
        m_markStackOverflow := true;   // SignalMarkStackOverflow_NonGCObject
        var some := m_incrementalWork.TransferSomethingFrom(m_barrierWork);
        moved := m_incrementalWork.Contents();
      }
    }

    lemma Moved(bar: seq<WorkItem>, moved: seq<WorkItem>, left: seq<WorkItem>)
      requires bar == left + moved && forall item :: item in bar ==> item.GCObject?
      ensures multiset(moved) + multiset(left) == multiset(bar)
      ensures forall item :: item in moved ==> item.GCObject?
      ensures forall item :: item in left ==> item.GCObject?
    {
      assert multiset(left + moved) == multiset(left) + multiset(moved);
      forall item | item in moved || item in left ensures item in bar { }
    }

    // ----- Recovery from mark stack overflow

    /** The objects that the iteration over the heap has not come to yet. */
    ghost function Unvisited(o: Obj): set<Obj>
      reads this
    {
      set x | x in heap && o <= x
    }

    /** The loop body of HandleMarkStackOverflow: GetNextMarkedObject yields only marked objects, from
        allocators of pointer-containing objects; they are traced again and marking is run to the end. */
    method VisitObject(o: Obj, ghost excl: set<Obj>, ghost scanned: set<Base>, ghost u0: set<Obj>)
      requires Valid() && m_incrementalWork.Contents() == []
      requires Inv(G(), Now(), excl, scanned) && Pass(m_incrementalWork.segmentWords, Now(), u0)
      modifies this`bits, this`m_markStackOverflow, m_incrementalWork
      ensures Valid() && m_incrementalWork.Contents() == []
      ensures Inv(G(), Now(), excl - {o}, scanned) && Pass(m_incrementalWork.segmentWords, Now(), u0)
      ensures MarksKept(old(bits), bits)
      ensures old(Starves()) ==> Now() == old(Now())
    {
      hide Holding, GCMarkStack.Contents, GCMarkStack.Valid, Inv, Pass, Scans, ClosedRange, TriColour.Work,
           SplitWords, SplitWeight, Starves;
      Domain({});
      StarvesWhite();
      Stacks({});
      ghost var v, seg := Now(), m_incrementalWork.segmentWords;
      if o in heap && heap[o].containsPointers && bits[o].mark && !bits[o].queued {
        HoldMarked(o);
        MarkedNotGarbage();
        MarkItem_GCObject(o);
        ghost var v1 := Now();
        ObjectRescanned(G(), seg, v, v1, HeadWords(o), HeadWeight(o), o, excl, scanned, u0);
        ScansKeepMarks(G(), seg, v, v1, {o}, HeadWords(o), HeadWeight(o));
        HeadFits(o);
        Mark(excl - {o}, scanned, u0);
      } else {
        ObjectSkipped(G(), v, o, excl, scanned);
      }
    }

    lemma StarvesWhite()
      ensures Starves() ==> forall o :: o in bits ==> !bits[o].mark
    {
    }

    lemma MarkedNotGarbage()
      requires Valid()
      ensures forall o :: o in bits && (bits[o].mark || bits[o].queued) ==> o !in garbage
    {
      SparedNotWhite(G(), bits, m_incrementalWork.Contents(), garbage);
    }

    lemma HoldMarked(o: Obj)
      requires Valid() && o in bits && !bits[o].queued
      ensures Holding({o})
    {
      Unqueued(bits, Work(), o);
    }

    lemma HeadFits(o: Obj)
      ensures NonObjectWords([]) == 0 && HeadWords(o) <= 6
    {
    }

    /** HandleMarkStackOverflow: mark from the roots, then find marked objects that point to unmarked
        ones, by walking the heap.  It may overflow again, but then it has marked something. */
    method HandleMarkStackOverflow(ghost u0: set<Obj>)
      requires Valid() && m_incrementalWork.Contents() == [] && !m_markStackOverflow
      requires u0 == Unmarked(bits)
      modifies this`bits, this`m_markStackOverflow, m_incrementalWork
      ensures Valid() && m_incrementalWork.Contents() == []
      ensures Inv(G(), Now(), {}, RootsBelow(G(), |roots|, false))
      ensures Pass(m_incrementalWork.segmentWords, Now(), u0)
      ensures MarksKept(old(bits), bits)
      ensures old(Starves() && ColdRoots(G(), false, hot)) ==> Now() == old(Now())
    {
      hide Holding, GCMarkStack.Contents, GCMarkStack.Valid, Inv, Pass, RootsBelow, TriColour.Work, Starving, ColdRoots;
      Domain({});
      PassBegins(u0);
      NothingScanned(G(), Now(), Unvisited(1));
      ghost var scanned := RootsBelow(G(), |roots|, false);
      MarkRoots(true, false, Unvisited(1), {}, u0);   // MarkNonstackRoots(true)
      assert {} + scanned == scanned;
      var o := 1;
      while o < memEnd
        invariant 1 <= o && Valid() && m_incrementalWork.Contents() == [] && G() == old(G())
        invariant Inv(G(), Now(), Unvisited(o), scanned) && Pass(m_incrementalWork.segmentWords, Now(), u0)
        invariant MarksKept(old(bits), bits)
        invariant old(Starves() && ColdRoots(G(), false, hot)) ==> Now() == old(Now())
      {
        VisitObject(o, Unvisited(o), scanned, u0);
        assert Unvisited(o) - {o} == Unvisited(o + 1);
        o := o + 1;
      }
      Domain({});
      assert Unvisited(o) == {};
    }

    lemma PassBegins(u0: set<Obj>)
      requires Valid() && m_incrementalWork.Contents() == [] && !m_markStackOverflow && u0 == Unmarked(bits)
      ensures Pass(m_incrementalWork.segmentWords, Now(), u0)
    {
    }

    // ----- The final phase

    ghost function StackBases(scanStack: bool): set<Base>
      reads `heap, `roots, `stack
    {
      RootsBelow(G(), |roots|, true) + if scanStack then {StackBase} else {}
    }

    ghost function StackWords(scanStack: bool): nat
      reads `roots
    {
      TriColour.StackWords(roots, splitThreshold, scanStack)
    }

    /** Push_StackMemory for the whole native stack. */
    method PushStack() returns (ghost extra: nat)
      requires Valid()
      modifies this`m_markStackOverflow, m_incrementalWork
      ensures Valid()
      ensures Scans(G(), m_incrementalWork.segmentWords, old(Now()), Now(), {}, 4, extra)
      ensures m_markStackOverflow || Closed(G(), bits, Work(), StackBase)
      ensures m_incrementalWork.allowance == 1 ==>
                Now() == PushOn(m_incrementalWork.segmentWords, old(Now()), Chunk(StackBase, 0))
    {
      hide Holding, GCMarkStack.Contents, GCMarkStack.Valid, Scans, TriColour.Work;
      extra := ItemWeight(G(), Chunk(StackBase, 0));
      Push_NonGCObject(Chunk(StackBase, 0), {});
      if !m_markStackOverflow {
        RangeWithTail(G(), bits, Work(), StackBase, 0, 0);
      }
    }

    /** What scanning the stack roots does before marking: the invariant extends to them, and the
        mark stack holds their tails, unless there was no room for them. */
    ghost predicate StackQueued(v: View, v': View, scanStack: bool, scanned: set<Base>, u0: set<Obj>)
      reads `heap, `roots, `stack
    {
      var seg := m_incrementalWork.segmentWords;
      && MarksKept(v.b, v'.b) && v'.rest == v.rest && (v.overflow ==> v'.overflow)
      && (Inv(G(), v, {}, scanned) ==> Inv(G(), v', {}, scanned + StackBases(scanStack)))
      && (Pass(seg, v, u0) && NonObjectWords(v.items) + StackWords(scanStack) + 1 <= seg ==> Pass(seg, v', u0))
      && (v'.overflow || NonObjectWords(v'.items) == NonObjectWords(v.items) + StackWords(scanStack))
    }

    method QueueStack(scanStack: bool, ghost scanned: set<Base>, ghost u0: set<Obj>)
      requires Valid()
      modifies this`bits, this`m_markStackOverflow, m_incrementalWork
      ensures Valid()
      ensures StackQueued(old(Now()), Now(), scanStack, scanned, u0)
      ensures var seg := m_incrementalWork.segmentWords;
        old(Starves() && RootsRefused(G(), splitThreshold, seg, Now(), true, hot)) ==>
          Now() == QueueEffect(G(), splitThreshold, seg, old(Now()), scanStack, hot)
    {
      hide Holding, GCMarkStack.Contents, GCMarkStack.Valid, Scans, TriColour.Work, Closed, RootsMarked, StackQueued,
           Starving, RootsRefused, RootsEffect, PushOn;
      MarkRoots(false, true, {}, scanned, u0);   // MarkStackRoots
      ghost var v1 := Now();
      if scanStack {
        ghost var extra := PushStack();
        StackStep(old(Now()), v1, Now(), extra, scanned, u0);
      } else {
        NoStackStep(old(Now()), v1, scanned, u0);
      }
    }

    lemma StackStep(v0: View, v1: View, v2: View, extra: nat, scanned: set<Base>, u0: set<Obj>)
      requires RootsMarked(v0, v1, |roots|, false, true, {}, scanned, u0)
      requires Scans(G(), m_incrementalWork.segmentWords, v1, v2, {}, 4, extra)
      requires v2.overflow || Closed(G(), v2.b, TriColour.Work(v2), StackBase)
      ensures StackQueued(v0, v2, true, scanned, u0)
    {
      hide Scans, Closed, Inv, Pass, Unmarked, RootsBelow, NonObjectWords, TriColour.Work;
      var below := scanned + RootsBelow(G(), |roots|, true);
      ScansKeepMarks(G(), m_incrementalWork.segmentWords, v1, v2, {}, 4, extra);
      ScansKeepInv(G(), m_incrementalWork.segmentWords, v1, v2, 4, extra, {}, below, u0);
      OneMoreScanned(G(), v2, StackBase, {}, below);
      assert below + {StackBase} == scanned + StackBases(true);
    }

    lemma NoStackStep(v0: View, v1: View, scanned: set<Base>, u0: set<Obj>)
      requires RootsMarked(v0, v1, |roots|, false, true, {}, scanned, u0)
      ensures StackQueued(v0, v1, false, scanned, u0)
    {
      assert scanned + RootsBelow(G(), |roots|, true) == scanned + StackBases(false);
    }

    /** MarkQueueAndStack */
    method MarkQueueAndStack(scanStack: bool, ghost scanned: set<Base>, ghost u0: set<Obj>)
      requires Valid()
      modifies this`bits, this`m_markStackOverflow, m_incrementalWork
      ensures Valid() && m_incrementalWork.Contents() == []
      ensures MarksKept(old(bits), bits)
      ensures old(m_markStackOverflow) ==> m_markStackOverflow
      ensures Inv(G(), old(Now()), {}, scanned) ==> Inv(G(), Now(), {}, scanned + StackBases(scanStack))
      ensures Pass(m_incrementalWork.segmentWords, old(Now()), u0) &&
              old(NonObjectWords(m_incrementalWork.Contents())) + StackWords(scanStack) + 1
                <= m_incrementalWork.segmentWords ==>
                Pass(m_incrementalWork.segmentWords, Now(), u0)
      // without a second segment there must be room for all the tails
      ensures m_incrementalWork.allowance == 1 && StackWords(scanStack) > m_incrementalWork.segmentWords ==>
                m_markStackOverflow
      // in the starving heap nothing is marked
      ensures old(Starves() && IsStuck(scanStack)) ==> Now() == old(Now()).(items := [], overflow := true)
    {
      hide Holding, GCMarkStack.Contents, GCMarkStack.Valid, Inv, Pass, TriColour.Work, StackBases, StackWords,
           NonObjectWords,
           Starving, RootsRefused, RootsEffect, PushOn, Calm, Doomed;
      QueueKeeps(Now(), scanStack);
      QueueStack(scanStack, scanned, u0);
      OneSegment();
      Stacks({});
      Mark({}, scanned + StackBases(scanStack), u0);
    }

    ghost predicate IsStuck(scanStack: bool)
      reads this, m_incrementalWork, m_barrierWork
    {
      Stuck(G(), splitThreshold, m_incrementalWork.segmentWords, Now(), scanStack, hot)
    }

    lemma QueueKeeps(v: View, scanStack: bool)
      ensures var v' := QueueEffect(G(), splitThreshold, m_incrementalWork.segmentWords, v, scanStack, hot);
        v'.b == v.b && v'.rest == v.rest
    {
      RootsEffectKeeps(G(), splitThreshold, m_incrementalWork.segmentWords, v, |roots|, true, hot);
    }

    lemma OneSegment()
      requires Valid()
      ensures m_incrementalWork.allowance == 1 ==>
                NonObjectWords(m_incrementalWork.Contents()) <= m_incrementalWork.segmentWords
    {
      m_incrementalWork.SingleSegment();
      NonObjectWordsIsTotal(m_incrementalWork.Contents());
    }

    /** One round of the first recovery loop of FinishIncrementalMark. */
    method RecoverAndMark()
      requires Valid() && m_incrementalWork.Contents() == []
      modifies this`bits, this`m_markStackOverflow, m_incrementalWork, m_barrierWork
      ensures Valid() && m_incrementalWork.Contents() == []
      ensures Inv(G(), Now(), {}, {})
      ensures MarksKept(old(bits), bits)
      ensures m_markStackOverflow ==> Unmarked(bits) < Unmarked(old(bits))
      ensures old(Starves() && ColdRoots(G(), false, hot) && m_barrierWork.Contents() == []) ==>
                Now() == old(Now()).(overflow := false) && m_barrierWork.Contents() == []
    {
      hide Holding, GCMarkStack.Contents, GCMarkStack.Valid, Inv, Pass, TriColour.Work, NonObjectWords, Starving,
           ColdRoots;
      ghost var u0 := Unmarked(bits);
      ClearOverflow();
      HandleMarkStackOverflow(u0);
      Weaken(Now(), RootsBelow(G(), |roots|, false));
      Stacks({});
      FlushBarrierWork({}, {}, u0);
      Mark({}, {}, u0);
      NoObjectLeft(u0);
    }

    /** One round of the second recovery loop of FinishIncrementalMark. */
    method RecoverAndMarkQueueAndStack(scanStack: bool)
      requires Valid() && m_incrementalWork.Contents() == []
      modifies this`bits, this`m_markStackOverflow, m_incrementalWork, m_barrierWork
      ensures Valid() && m_incrementalWork.Contents() == []
      ensures m_markStackOverflow || m_barrierWork.Contents() == []
      ensures Inv(G(), Now(), {}, RootBases(G(), scanStack))
      ensures MarksKept(old(bits), bits)
      ensures StackWords(scanStack) + 1 <= m_incrementalWork.segmentWords && m_markStackOverflow ==>
                Unmarked(bits) < Unmarked(old(bits))
      ensures m_incrementalWork.allowance == 1 && StackWords(scanStack) > m_incrementalWork.segmentWords ==>
                m_markStackOverflow
      ensures old(Starves() && FillsSegment(scanStack) && m_barrierWork.Contents() == []) ==>
                Now() == old(Now()).(overflow := true) && m_barrierWork.Contents() == []
    {
      hide Holding, GCMarkStack.Contents, GCMarkStack.Valid, Inv, Pass, TriColour.Work, NonObjectWords, RootBases,
           Starving, Stuck, ColdRoots, FillsSegment;
      Stacks({});
      IfFills(Now().(overflow := false), scanStack);
      ghost var u0 := Unmarked(bits);
      ClearOverflow();
      HandleMarkStackOverflow(u0);
      ghost var scanned := RootsBelow(G(), |roots|, false);
      Stacks({});
      FlushBarrierWork({}, scanned, u0);
      Stacks({});
      MarkQueueAndStack(scanStack, scanned, u0);
      AllRootsScanned(G(), scanStack);
      assert scanned + StackBases(scanStack) == RootBases(G(), scanStack);
      NoObjectLeft(u0);
    }

    /** The tails of the stack roots fill the segment to the last word. */
    ghost predicate FillsSegment(scanStack: bool)
      reads `heap, `roots, `stack, `hot
    {
      Fills(G(), splitThreshold, m_incrementalWork.segmentWords, scanStack, hot)
    }

    lemma IfFills(v: View, scanStack: bool)
      requires 0 < splitThreshold && v.items == []
      ensures FillsSegment(scanStack) ==>
        var seg := m_incrementalWork.segmentWords;
        var v1 := RootsEffect(G(), splitThreshold, seg, v, |roots|, false, hot);
        && ColdRoots(G(), false, hot) && v1.b == v.b && v1.rest == v.rest
        && RootsRefused(G(), splitThreshold, seg, v, false, hot)
        && (!v.overflow ==>
              && Stuck(G(), splitThreshold, seg, v, scanStack, hot)
              && Stuck(G(), splitThreshold, seg, v1, scanStack, hot))
    {
      if FillsSegment(scanStack) {
        var seg := m_incrementalWork.segmentWords;
        FillsIsCold(G(), splitThreshold, seg, scanStack, hot);
        RootsEffectKeeps(G(), splitThreshold, seg, v, |roots|, false, hot);
        OtherRootsQueued(G(), splitThreshold, seg, v, |roots|, false, hot);
        if !v.overflow { FilledIsStuck(G(), splitThreshold, seg, v, scanStack, hot); }
      }
    }

    method ClearOverflow()
      requires Valid()
      modifies this`m_markStackOverflow
      ensures Valid() && !m_markStackOverflow
      ensures m_incrementalWork.Contents() == old(m_incrementalWork.Contents())
      ensures Now() == old(Now()).(overflow := false)
    {
      hide QueueExact, WellFormed, Spared, GCMarkStack.Contents, GCMarkStack.Valid;
      m_markStackOverflow := false;
    }

    lemma Weaken(v: View, scanned: set<Base>)
      requires Inv(G(), v, {}, scanned)
      ensures Inv(G(), v, {}, {})
    {
    }

    /** At the end of a pass the stack is empty, so an overflow means that something was marked. */
    lemma NoObjectLeft(u0: set<Obj>)
      requires m_incrementalWork.Contents() == []
      ensures Pass(m_incrementalWork.segmentWords, Now(), u0) && m_markStackOverflow ==> Unmarked(bits) < u0
    {
    }

    /** The part of FinishIncrementalMark between its two recovery loops. */
    method FinalScan(scanStack: bool)
      requires Valid() && m_incrementalWork.Contents() == []
      requires Inv(G(), Now(), {}, {})
      modifies this`bits, this`m_markStackOverflow, m_incrementalWork, m_barrierWork
      ensures Valid() && m_incrementalWork.Contents() == []
      ensures m_markStackOverflow || m_barrierWork.Contents() == []
      ensures Inv(G(), Now(), {}, RootBases(G(), scanStack))
      ensures MarksKept(old(bits), bits)
      ensures m_incrementalWork.allowance == 1 && StackWords(scanStack) > m_incrementalWork.segmentWords ==>
                m_markStackOverflow
      ensures old(Starves() && FillsSegment(scanStack) && m_barrierWork.Contents() == [] && !m_markStackOverflow) ==>
                Now() == old(Now()).(overflow := true) && m_barrierWork.Contents() == []
    {
      hide Holding, GCMarkStack.Contents, GCMarkStack.Valid, Inv, Pass, TriColour.Work, NonObjectWords, RootBases,
           Starving, Stuck, ColdRoots, FillsSegment, RootsEffect, RootsRefused;
      Stacks({});
      IfFills(Now(), scanStack);
      ghost var scanned := RootsBelow(G(), |roots|, false);
      Stacks({});
      FlushBarrierWork({}, {}, {});
      Stacks({});
      MarkRoots(false, false, {}, {}, {});   // MarkNonstackRoots()
      assert {} + scanned == scanned;
      MarkQueueAndStack(scanStack, scanned, {});
      AllRootsScanned(G(), scanStack);
      assert scanned + StackBases(scanStack) == RootBases(G(), scanStack);
    }

    /** Sweep, as far as the marker is concerned: unmarked objects are freed, marks are cleared. */
    method Sweep(ghost scanned: set<Base>)
      requires Valid() && !m_markStackOverflow
      requires m_incrementalWork.Contents() == [] && m_barrierWork.Contents() == []
      requires Inv(G(), Now(), {}, scanned)
      modifies this`heap, this`bits, this`marking, this`stack, this`garbage
      ensures Ready() && !marking
      ensures heap == Swept(old(heap), old(bits))
      ensures forall o :: o in heap <==> o in old(heap) && o in old(bits) && old(bits)[o].mark
      ensures forall o :: o in heap ==> heap[o] == old(heap)[o]
      ensures forall o :: o in bits <==> o in heap
      ensures forall o :: o in bits ==> White(bits, o)
      ensures forall o :: o in old(garbage) ==> o !in heap
    {
      hide Holding, Inv, Ready, GCMarkStack.Contents, GCMarkStack.Valid, Swept;
      GarbageUnmarked();
      SweptObjects();
      SweptWellFormed(scanned);
      KeepOnly(Swept(heap, bits));
    }

    lemma SweptWellFormed(scanned: set<Base>)
      requires Valid() && !m_markStackOverflow
      requires m_incrementalWork.Contents() == [] && m_barrierWork.Contents() == []
      requires Inv(G(), Now(), {}, scanned)
      ensures WellFormed(Graph(Swept(heap, bits), roots, []), Unmark(Swept(heap, bits)))
      ensures forall o :: o in Swept(heap, bits) ==> o < memEnd
      ensures m_incrementalWork.Valid() && m_barrierWork.Valid() && m_incrementalWork != m_barrierWork
      ensures m_incrementalWork.segmentWords == m_barrierWork.segmentWords && 0 < splitThreshold
    {
      assert Work() == multiset{};
      SweepWellFormed(G(), bits, scanned);
    }

    method KeepOnly(heap': map<Obj, Object>)
      requires WellFormed(Graph(heap', roots, []), Unmark(heap')) && forall o :: o in heap' ==> o < memEnd
      requires m_incrementalWork.Valid() && m_barrierWork.Valid() && m_incrementalWork != m_barrierWork
      requires m_incrementalWork.segmentWords == m_barrierWork.segmentWords && 0 < splitThreshold
      requires m_incrementalWork.Contents() == [] && m_barrierWork.Contents() == [] && !m_markStackOverflow
      modifies this`heap, this`bits, this`marking, this`stack, this`garbage
      ensures Ready() && !marking && heap == heap' && bits == Unmark(heap')
    {
      hide WellFormed, Spared, QueueExact, ItemsInGraph, GCMarkStack.Contents, GCMarkStack.Valid, Tri;
      AfterSweep(Graph(heap', roots, []));
      heap, bits, marking, stack, garbage := heap', Unmark(heap'), false, [], {};
      assert multiset(m_incrementalWork.Contents()) + multiset(m_barrierWork.Contents()) == multiset{};
    }

    lemma GarbageUnmarked()
      requires Valid()
      ensures forall o :: o in garbage ==> o !in Swept(heap, bits)
    {
      SparedNotWhite(G(), bits, m_incrementalWork.Contents(), garbage);
    }

    lemma AfterSweep(g: Graph)
      ensures Spared(g, Unmark(g.heap), [], {})
      ensures QueueExact(Unmark(g.heap), multiset{}, {}) && ItemsInGraph(g, [])
      ensures Tri(g, Unmark(g.heap), multiset{}, {}, {})
    {
    }

    /** What holds between the collector's increments: outside marking no bit is set and no work is
        pending, during marking the tri-colour invariant holds. */
    ghost predicate Ready()
      reads this, m_incrementalWork, m_barrierWork
    {
      && Valid()
      && Inv(G(), Now(), {}, {})
      && (!marking ==> !m_markStackOverflow && m_incrementalWork.Contents() == [] && m_barrierWork.Contents() == []
                       && forall o :: o in bits ==> bits[o] == GCBits(false, false))
    }

    /** The stack as the collector finds it when it scans it. */
    method LookAtStack(nativeStack: seq<Word>)
      requires Valid() && m_incrementalWork.Contents() == [] && Inv(G(), Now(), {}, {})
      requires forall i :: 0 <= i < |nativeStack| ==> nativeStack[i] !in garbage
      modifies this`stack
      ensures Valid() && Inv(G(), Now(), {}, {}) && stack == nativeStack && Now() == old(Now())
    {
      hide QueueExact, Spared, GCMarkStack.Contents, GCMarkStack.Valid, Inv;
      OtherRootsKeepInv(G(), Now(), roots, nativeStack);
      StackSpares(nativeStack);
      stack := nativeStack;
    }

    lemma StackSpares(stack': seq<Word>)
      requires Valid() && forall i :: 0 <= i < |stack'| ==> stack'[i] !in garbage
      ensures Spared(Graph(heap, roots, stack'), bits, m_incrementalWork.Contents(), garbage)
    {
      var g' := Graph(heap, roots, stack');
      forall base: Base, k: nat | !base.ObjectBase? && k < |Fields(g', base)| ensures Fields(g', base)[k] !in garbage {
        assert base.RootBase? ==> Fields(g', base) == Fields(G(), base);
      }
      RootsSpare(G(), bits, m_incrementalWork.Contents(), g', garbage);
    }

    /** The first recovery loop of FinishIncrementalMark, given up after 'passes' rounds. */
    method FirstRecovery(passes: nat) returns (n: nat)
      requires Valid() && m_incrementalWork.Contents() == [] && Inv(G(), Now(), {}, {})
      modifies this`bits, this`m_markStackOverflow, m_incrementalWork, m_barrierWork
      ensures Valid() && m_incrementalWork.Contents() == [] && Inv(G(), Now(), {}, {})
      ensures MarksKept(old(bits), bits)
      ensures m_markStackOverflow ==> n == passes && passes + |Unmarked(bits)| <= |heap|
      ensures n + |Unmarked(bits)| <= |heap| + 1
      ensures old(Starves() && ColdRoots(G(), false, hot) && m_barrierWork.Contents() == []) ==>
                Now() == old(Now()).(overflow := m_markStackOverflow) && m_barrierWork.Contents() == []
    {
      hide Holding, GCMarkStack.Contents, GCMarkStack.Valid, Inv, Unmarked, Starving, ColdRoots;
      n := 0;
      UnmarkedSize();
      while m_markStackOverflow && n < passes
        invariant Valid() && m_incrementalWork.Contents() == [] && Inv(G(), Now(), {}, {}) && G() == old(G())
        invariant MarksKept(old(bits), bits)
        invariant n <= passes
        invariant n + |Unmarked(bits)| <= |heap| + if m_markStackOverflow then 0 else 1
        invariant old(Starves() && ColdRoots(G(), false, hot) && m_barrierWork.Contents() == []) ==>
                    Now() == old(Now()).(overflow := m_markStackOverflow) && m_barrierWork.Contents() == []
      {
        ghost var b := bits;
        RecoverAndMark();
        MoreMarked(b);
        n := n + 1;
      }
    }

    /** The second recovery loop. */
    method SecondRecovery(scanStack: bool, passes: nat, start: nat) returns (n: nat)
      requires Valid() && m_incrementalWork.Contents() == [] && Inv(G(), Now(), {}, RootBases(G(), scanStack))
      requires m_markStackOverflow || m_barrierWork.Contents() == []
      requires start + |Unmarked(bits)| <= |heap| + 1
      requires m_incrementalWork.allowance == 1 && StackWords(scanStack) > m_incrementalWork.segmentWords ==>
                m_markStackOverflow
      modifies this`bits, this`m_markStackOverflow, m_incrementalWork, m_barrierWork
      ensures Valid() && m_incrementalWork.Contents() == [] && Inv(G(), Now(), {}, RootBases(G(), scanStack))
      ensures m_markStackOverflow || m_barrierWork.Contents() == []
      ensures MarksKept(old(bits), bits)
      ensures StackWords(scanStack) + 1 <= m_incrementalWork.segmentWords && passes >= |heap| + 2 ==>
                !m_markStackOverflow
      ensures m_incrementalWork.allowance == 1 && StackWords(scanStack) > m_incrementalWork.segmentWords ==>
                m_markStackOverflow
      ensures old(Starves() && FillsSegment(scanStack) && m_barrierWork.Contents() == [] && m_markStackOverflow) ==>
                m_markStackOverflow
    {
      hide Holding, GCMarkStack.Contents, GCMarkStack.Valid, Inv, Unmarked, RootBases, RootsWords, Starving,
           FillsSegment;
      n := start;
      while m_markStackOverflow && n < passes
        invariant Valid() && m_incrementalWork.Contents() == [] && G() == old(G())
        invariant Inv(G(), Now(), {}, RootBases(G(), scanStack))
        invariant m_markStackOverflow || m_barrierWork.Contents() == []
        invariant MarksKept(old(bits), bits)
        invariant StackWords(scanStack) + 1 <= m_incrementalWork.segmentWords && m_markStackOverflow ==>
                    n + |Unmarked(bits)| <= |heap| + 1
        invariant m_incrementalWork.allowance == 1 && StackWords(scanStack) > m_incrementalWork.segmentWords ==>
                    m_markStackOverflow
        invariant old(Starves() && FillsSegment(scanStack) && m_barrierWork.Contents() == [] && m_markStackOverflow) ==>
                    Now() == old(Now()) && m_barrierWork.Contents() == []
      {
        ghost var b := bits;
        RecoverAndMarkQueueAndStack(scanStack);
        MoreMarked(b);
        n := n + 1;
      }
    }

    lemma UnmarkedSize()
      requires Valid()
      ensures |Unmarked(bits)| <= |heap|
    {
      SubsetSize(Unmarked(bits), heap.Keys);
    }

    lemma MoreMarked(b: Colouring)
      requires MarksKept(b, bits)
      ensures |Unmarked(bits)| <= |Unmarked(b)|
      ensures Unmarked(bits) < Unmarked(b) ==> |Unmarked(bits)| < |Unmarked(b)|
    {
      SubsetSize(Unmarked(bits), Unmarked(b));
    }

    /** FinishIncrementalMark: complete the marking with the mutator stopped, then sweep.  The source's
        loops run for as long as there are overflows; 'done' says that they come to an end within
        'passes' rounds. */
    method FinishIncrementalMark(nativeStack: seq<Word>, scanStack: bool, passes: nat) returns (done: bool)
      requires Ready() && marking
      requires forall i :: 0 <= i < |nativeStack| ==> nativeStack[i] !in garbage
      modifies this, m_incrementalWork, m_barrierWork
      ensures roots == old(roots) && memEnd == old(memEnd)
      ensures done ==> Ready() && !marking
      // nothing that is reachable is freed, and what remains is unchanged
      ensures done ==> forall o :: Reachable(Graph(old(heap), roots, nativeStack), scanStack, o) ==> o in heap
      ensures done ==> forall o :: o in heap ==> o in old(heap) && heap[o] == old(heap)[o]
      // what has been out of reach since marking began is freed
      ensures done ==> forall o :: o in old(garbage) ==> o !in heap
      // recovery comes to an end if the tails of the stack roots fit into one segment of the mark stack ...
      ensures StackWords(scanStack) + 1 <= m_incrementalWork.segmentWords && passes >= |old(heap)| + 2 ==> done
      // ... but never does if they do not fit and no second segment can be had, or if they just fit and then some
      // object is refused over and over
      ensures m_incrementalWork.allowance == 1 && StackWords(scanStack) > m_incrementalWork.segmentWords ==> !done
      ensures old(StarvesOn(nativeStack, scanStack)) ==> !done
    {
      hide Holding, GCMarkStack.Contents, GCMarkStack.Valid, Inv, RootBases, RootsWords, Reachable, Swept, Ready;
      done := CompleteMarking(nativeStack, scanStack, passes);
      if done {
        ReachableMarked(scanStack);
        SweptObjects();
        Sweep(RootBases(G(), scanStack));
      }
    }

    /** The tails of the stack roots, and of this native stack, fill the one segment there is to the last word, and the
        only pointer to a large object is in the last range that is queued. */
    ghost predicate StarvesOn(nativeStack: seq<Word>, scanStack: bool)
      reads this, m_incrementalWork, m_barrierWork
    {
      && Dormant()
      && var g := G().(stack := nativeStack);
         Starving(g, bits, hot) && Fills(g, splitThreshold, m_incrementalWork.segmentWords, scanStack, hot)
    }

    lemma StarvesOnIs(nativeStack: seq<Word>, scanStack: bool)
      ensures StarvesOn(nativeStack, scanStack) ==> Starves() && Calm(m_incrementalWork.Contents(), hot)
      ensures StarvesOn(nativeStack, scanStack) ==> ColdRoots(G().(stack := nativeStack), false, hot)
    {
    }

    /** The part of FinishIncrementalMark that comes before the sweep. */
    method CompleteMarking(nativeStack: seq<Word>, scanStack: bool, passes: nat) returns (done: bool)
      requires Ready()
      requires forall i :: 0 <= i < |nativeStack| ==> nativeStack[i] !in garbage
      modifies this`stack, this`bits, this`m_markStackOverflow, m_incrementalWork, m_barrierWork
      ensures Valid() && stack == nativeStack
      ensures done ==> !m_markStackOverflow && m_incrementalWork.Contents() == [] && m_barrierWork.Contents() == []
      ensures done ==> Inv(G(), Now(), {}, RootBases(G(), scanStack))
      ensures StackWords(scanStack) + 1 <= m_incrementalWork.segmentWords && passes >= |heap| + 2 ==> done
      ensures m_incrementalWork.allowance == 1 && StackWords(scanStack) > m_incrementalWork.segmentWords ==> !done
      ensures old(StarvesOn(nativeStack, scanStack)) ==> !done
    {
      hide Holding, GCMarkStack.Contents, GCMarkStack.Valid, Inv, Unmarked, RootBases, RootsWords, MarksKept, Ready,
           Starving, Calm, Fills, ColdRoots;
      StarvesOnIs(nativeStack, scanStack);
      MarkAll();
      LookAtStack(nativeStack);
      var n := FirstRecovery(passes);
      if m_markStackOverflow {
        return false;
      }
      ghost var b := bits;
      FinalScan(scanStack);
      MoreMarked(b);
      n := SecondRecovery(scanStack, passes, n);
      done := !m_markStackOverflow;
    }

    method MarkAll()
      requires Ready()
      modifies this`bits, this`m_markStackOverflow, m_incrementalWork
      ensures Valid() && m_incrementalWork.Contents() == [] && Inv(G(), Now(), {}, {})
      ensures old(Starves() && Calm(m_incrementalWork.Contents(), hot)) ==> Now() == old(Now()).(items := [])
    {
      hide Holding, GCMarkStack.Contents, GCMarkStack.Valid, Inv, Calm;
      Mark({}, {}, {});
    }

    lemma ReachableMarked(scanStack: bool)
      requires Valid() && !m_markStackOverflow
      requires m_incrementalWork.Contents() == [] && m_barrierWork.Contents() == []
      requires Inv(G(), Now(), {}, RootBases(G(), scanStack))
      ensures forall o :: Reachable(G(), scanStack, o) ==> o in heap && Black(bits, o)
    {
      assert Work() == multiset{};
      forall o | Reachable(G(), scanStack, o) ensures o in heap && Black(bits, o) {
        MarkingSound(G(), bits, scanStack, o);
      }
    }

    lemma SweptObjects()
      ensures forall o :: o in Swept(heap, bits) <==> o in heap && o in bits && bits[o].mark
      ensures forall o :: o in Swept(heap, bits) ==> Swept(heap, bits)[o] == heap[o]
    {
    }

    // ----- Increments of marking

    /** IncrementalMark: mark in portions of at most 100 items until the time is over. */
    method IncrementalMark(slices: nat, ghost scanned: set<Base>)
      requires Ready() && marking && Inv(G(), Now(), {}, scanned)
      modifies this`bits, this`m_markStackOverflow, m_incrementalWork, m_barrierWork
      ensures Ready() && Inv(G(), Now(), {}, scanned)
      ensures NoFarther(G(), old(Now()), Now())
      ensures 0 < slices && old(m_incrementalWork.Contents()) != [] ==> Closer(G(), old(Now()), Now())
      ensures old(Dormant()) ==> Dormant()
    {
      hide Holding, GCMarkStack.Contents, GCMarkStack.Valid, Inv, Marks, Pass, Closer, NoFarther, Starving, Calm;
      AsFar(Now());
      var slice := 0;
      while slice < slices
        invariant Valid() && Inv(G(), Now(), {}, scanned)
        invariant NoFarther(G(), old(Now()), Now())
        invariant old(m_incrementalWork.Contents()) != [] ==>
                    if slice == 0 then Now() == old(Now()) else Closer(G(), old(Now()), Now())
        invariant old(Dormant()) ==> Dormant()
      {
        Stacks({});
        ghost var v := Now();
        if m_incrementalWork.IsEmpty() {
          CheckBarrierWork(scanned);
          NoFartherBoth(G(), old(Now()), v, Now());
          Stacks({});
          if m_incrementalWork.IsEmpty() { break; }
        }
        ghost var v1 := Now();
        MarkPortion(scanned);
        NoFartherBoth(G(), old(Now()), v1, Now());
        slice := slice + 1;
      }
      Weaken(Now(), scanned);
    }

    method MarkPortion(ghost scanned: set<Base>)
      requires Valid() && Inv(G(), Now(), {}, scanned) && m_incrementalWork.Contents() != []
      modifies this`bits, this`m_markStackOverflow, m_incrementalWork
      ensures Valid() && Inv(G(), Now(), {}, scanned)
      ensures NoFarther(G(), old(Now()), Now()) && Closer(G(), old(Now()), Now())
      ensures old(Dormant()) ==> Dormant()
    {
      hide Holding, GCMarkStack.Contents, GCMarkStack.Valid, Inv, Pass, Closer, NoFarther, Dormant;
      Stacks({});
      var count := m_incrementalWork.Count();
      CountPositive();
      if count > 100 { count := 100; }
      MarkSome(count, scanned);
    }

    lemma CountPositive()
      requires m_incrementalWork.Valid() && m_incrementalWork.Contents() != []
      ensures m_incrementalWork.Count() > 0
    {
      assert m_incrementalWork.Count() == TotalWords(m_incrementalWork.Contents());
    }

    /** StartIncrementalMark: all bits are clear; mark the roots and do the first increment. */
    method StartIncrementalMark(slices: nat, ghost unreachable: set<Obj>)
      requires Ready() && !marking && Sealed(G(), unreachable)
      modifies this`garbage, this`marking, this`bits, this`m_markStackOverflow, m_incrementalWork, m_barrierWork
      ensures Ready() && marking && garbage == unreachable
      // no root but those in stack memory shows a white object
      ensures Inv(G(), Now(), {}, RootsBelow(G(), |roots|, false))
      ensures old(Starves() && ColdRoots(G(), false, hot)) ==> Dormant()
    {
      hide Holding, GCMarkStack.Contents, GCMarkStack.Valid, Inv, Pass, Ready, Dormant, RootsBelow, Starves, ColdRoots;
      ghost var starves := Starves() && ColdRoots(G(), false, hot);
      SetMarking(unreachable);
      MarkFirstRoots(starves);
      IncrementalMark(slices, RootsBelow(G(), |roots|, false));
    }

    method SetMarking(ghost unreachable: set<Obj>)
      requires Ready() && !marking && Sealed(G(), unreachable)
      modifies this`marking, this`garbage
      ensures Ready() && marking && garbage == unreachable
      ensures m_incrementalWork.Contents() == [] && m_barrierWork.Contents() == [] && (old(Starves()) ==> Starves())
    {
      hide QueueExact, GCMarkStack.Contents, GCMarkStack.Valid, Inv, Starving;
      marking, garbage := true, unreachable;
    }

    method MarkFirstRoots(ghost starves: bool)
      requires Ready() && marking && m_incrementalWork.Contents() == [] && m_barrierWork.Contents() == []
      requires starves ==> Starves() && ColdRoots(G(), false, hot)
      modifies this`bits, this`m_markStackOverflow, m_incrementalWork
      ensures Ready() && Inv(G(), Now(), {}, RootsBelow(G(), |roots|, false))
      ensures starves ==> Dormant()
    {
      hide Holding, GCMarkStack.Contents, GCMarkStack.Valid, Inv, Pass, Starving, Calm, ColdRoots, RootsEffect,
           RootsRefused;
      Stacks({});
      FirstRootsStarve(Now());
      MarkRoots(false, false, {}, {}, {});
      assert {} + RootsBelow(G(), |roots|, false) == RootsBelow(G(), |roots|, false);
      Weaken(Now(), RootsBelow(G(), |roots|, false));
    }

    lemma FirstRootsStarve(v: View)
      requires v.items == [] && 0 < splitThreshold
      ensures var v' := RootsEffect(G(), splitThreshold, m_incrementalWork.segmentWords, v, |roots|, false, hot);
        v'.b == v.b && v'.rest == v.rest &&
        (ColdRoots(G(), false, hot) ==>
           RootsRefused(G(), splitThreshold, m_incrementalWork.segmentWords, v, false, hot) && Calm(v'.items, hot))
    {
      RootsEffectKeeps(G(), splitThreshold, m_incrementalWork.segmentWords, v, |roots|, false, hot);
      if ColdRoots(G(), false, hot) {
        OtherRootsQueued(G(), splitThreshold, m_incrementalWork.segmentWords, v, |roots|, false, hot);
      }
    }

    // ----- The mutator's side

    /** Neither stack has room for an object in its first segment. */
    ghost predicate BothFull()
      reads m_incrementalWork, m_barrierWork
    {
      && TotalWords(m_barrierWork.Contents()) + 1 > m_barrierWork.segmentWords
      && TotalWords(m_incrementalWork.Contents()) + 1 > m_incrementalWork.segmentWords
    }

    /** A container that is queued goes to one of the stacks, or else turns white with an overflow. */
    static ghost predicate Hit(v: View, v': View, container: Obj) {
      || v' == v.(rest := v.rest + multiset{GCObject(container)})
      || v' == v.(items := v.items + [GCObject(container)])
      || v' == v.(b := v.b[container := GCBits(false, false)], overflow := true)
    }

    /** What a trap does: nothing, unless the container is black, and then nothing but to make it queued, if it can. */
    static ghost predicate Trapped(v: View, v': View, container: Obj) {
      if Black(v.b, container) then Hit(v.(b := v.b[container := GCBits(false, true)]), v', container) else v' == v
    }

    /** WriteBarrierHit: queue the container on the barrier stack, or else on the mark stack. */
    method WriteBarrierHit(container: Obj)
      requires Holding({container}) && container in bits && bits[container].queued
      modifies this`bits, this`m_markStackOverflow, m_incrementalWork, m_barrierWork
      ensures Valid()
      ensures old(m_markStackOverflow) ==> m_markStackOverflow
      ensures m_markStackOverflow ||
              (bits == old(bits) && TriColour.Work(Now()) == old(TriColour.Work(Now())) + multiset{GCObject(container)})
      ensures Hit(old(Now()), Now(), container)
      ensures m_markStackOverflow && !old(m_markStackOverflow) ==> BothFull()
    {
      hide Holding, GCMarkStack.Contents, GCMarkStack.Valid, TotalWords, Hit, TriColour.Work;
      ghost var v := Now();
      TwoStacks({container});
      var ok := PushBarrier(container);
      if !ok {
        var _ := Push_GCObject(container);
      }
      IsHit(v, Now(), container);
      HandEmpty();
    }

    lemma TwoStacks(hand: set<Obj>)
      requires Holding(hand)
      ensures m_incrementalWork != m_barrierWork
    {
    }

    lemma HandEmpty()
      requires Holding({})
      ensures Valid()
    {
    }

    method PushBarrier(container: Obj) returns (ok: bool)
      requires Holding({container}) && container in bits && bits[container].queued
      modifies m_barrierWork
      ensures ok ==> Holding({}) && Now() == old(Now()).(rest := old(Now()).rest + multiset{GCObject(container)})
      ensures !ok ==> Holding({container}) && Now() == old(Now())
      ensures !ok ==> TotalWords(m_barrierWork.Contents()) + 1 > m_barrierWork.segmentWords
    {
      hide QueueExact, WellFormed, Spared, ItemsInGraph, GCMarkStack.Contents, GCMarkStack.Valid, TotalWords;
      ghost var bar, inc := m_barrierWork.Contents(), m_incrementalWork.Contents();
      Commuted(bar, inc);
      PushQueued(bits, bar, multiset(inc), container);
      OneMore(bar, container);
      ok := m_barrierWork.Push(GCObject(container));
      Commuted(m_barrierWork.Contents(), inc);
    }

    static lemma IsHit(v: View, v': View, o: Obj)
      requires || v' == v.(rest := v.rest + multiset{GCObject(o)})
               || v' == v.(items := v.items + [GCObject(o)])
               || v' == v.(b := v.b[o := GCBits(false, false)], overflow := true)
      ensures Hit(v, v', o)
      ensures v'.overflow || (v'.b == v.b && TriColour.Work(v') == TriColour.Work(v) + multiset{GCObject(o)})
    {
      OneMore(v.items, o);
    }

    static lemma OneMore(items: seq<WorkItem>, o: Obj)
      ensures multiset(items + [GCObject(o)]) == multiset(items) + multiset{GCObject(o)}
    {
    }

    lemma Commuted(bar: seq<WorkItem>, inc: seq<WorkItem>)
      ensures multiset(bar) + multiset(inc) == multiset(inc) + multiset(bar)
    {
    }

    /** InlineWriteBarrierTrap: a black container becomes grey. */
    method InlineWriteBarrierTrap(container: Obj)
      requires Ready() && marking && container in heap
      modifies this`bits, this`m_markStackOverflow, m_incrementalWork, m_barrierWork
      ensures Ready()
      ensures m_markStackOverflow || !Black(bits, container)
      ensures Trapped(old(Now()), Now(), container)
      ensures m_markStackOverflow && !old(m_markStackOverflow) ==> BothFull()
    {
      hide Holding, GCMarkStack.Contents, GCMarkStack.Valid, Inv, Hit;
      Domain({});
      if bits[container].mark {   // IsMarkedThenMakeQueued
        ghost var v := Now();
        NotQueued(container);
        MarkedNotGarbage();
        TakeInHand(container, GCBits(false, true));
        WriteBarrierHit(container);
        if m_markStackOverflow {
          Overflowed();
        } else {
          GreyedKeepsInv(G(), v, container, Now());
        }
      }
    }

    lemma NotQueued(o: Obj)
      requires Valid() && o in bits && bits[o].mark
      ensures !bits[o].queued
    {
    }

    lemma Overflowed()
      requires m_markStackOverflow
      ensures Inv(G(), Now(), {}, {})
    {
    }

    /** A store through the barrier: InlineWriteBarrier tests the value for NULL before it traps,
        privateInlineWriteBarrier does not. */
    method WriteBarrier(container: Obj, i: nat, value: Word, nullChecked: bool)
      requires Ready() && CanDo(G(), Store(container, i, value, nullChecked)) && value !in garbage
      modifies this`heap, this`bits, this`m_markStackOverflow, m_incrementalWork, m_barrierWork
      ensures Ready()
      ensures heap == StoreIn(old(heap), container, i, value)
      ensures OnlyWord(old(heap), heap, container, i, value)
      ensures if old(marking) && (value != 0 || !nullChecked) then Trapped(old(Now()), Now(), container)
              else Now() == old(Now())
      ensures m_markStackOverflow && !old(m_markStackOverflow) ==> BothFull()
    {
      hide Holding, GCMarkStack.Contents, GCMarkStack.Valid, Inv, TriColour.Work, Hit, Trapped, TotalWords;
      if marking && (value != 0 || !nullChecked) {
        InlineWriteBarrierTrap(container);
      } else {
        AllWhite();
      }
      WriteField(container, i, value);
    }

    lemma AllWhite()
      requires Ready()
      ensures !marking ==> forall o :: o in bits ==> !Black(bits, o)
    {
    }

    method WriteField(container: Obj, i: nat, value: Word)
      requires Ready() && CanDo(G(), Store(container, i, value, true)) && value !in garbage
      requires !Black(bits, container) || m_markStackOverflow || value == 0
      modifies this`heap
      ensures Ready()
      ensures heap == StoreIn(old(heap), container, i, value)
    {
      hide QueueExact, WellFormed, Spared, ItemsInGraph, GCMarkStack.Contents, GCMarkStack.Valid, Inv, StoreIn;
      StoreWellFormed(G(), bits, m_incrementalWork.Contents(), container, i, value);
      StoreSpares(G(), bits, m_incrementalWork.Contents(), container, i, value, garbage);
      StoreKeepsInv(G(), Now(), container, i, value);
      heap := StoreIn(heap, container, i, value);
    }

    /** Allocation outside collection: a new object is white and zeroed. */
    method Alloc(o: Obj, words: nat, containsPointers: bool, exact: bool)
      requires Ready() && CanDo(G(), Allocate(o, words, containsPointers, exact))
      modifies this`heap, this`bits, this`memEnd
      ensures Ready()
      ensures heap == old(heap)[o := NewObject(words, containsPointers, exact)]
      ensures OnlyNew(old(heap), heap, o, words, containsPointers, exact)
      ensures Now() == old(Now()).(b := old(bits)[o := GCBits(false, false)])
    {
      hide QueueExact, WellFormed, ItemsInGraph, Spared, GCMarkStack.Contents, GCMarkStack.Valid, Inv, NewObject;
      ghost var record := NewObject(words, containsPointers, exact);
      NewObjectNull(words, containsPointers, exact);
      NewObjectKeepsInv(G(), Now(), o, record);
      NewObjectSpares(G(), bits, m_incrementalWork.Contents(), o, record, garbage);
      NewObjectWellFormed(G(), bits, m_incrementalWork.Contents(), Work(), o, record);
      AddObject(o, NewObject(words, containsPointers, exact));
    }

    method AddObject(o: Obj, record: Object)
      requires Ready() && o !in heap
      requires WellFormed(G().(heap := heap[o := record]), bits[o := GCBits(false, false)])
      requires QueueExact(bits[o := GCBits(false, false)], Work(), {})
      requires ItemsInGraph(G().(heap := heap[o := record]), m_incrementalWork.Contents())
      requires Spared(G().(heap := heap[o := record]), bits[o := GCBits(false, false)],
                      m_incrementalWork.Contents(), garbage)
      requires Inv(G().(heap := heap[o := record]), Now().(b := bits[o := GCBits(false, false)]), {}, {})
      modifies this`heap, this`bits, this`memEnd
      ensures Ready() && heap == old(heap)[o := record]
      ensures Now() == old(Now()).(b := old(bits)[o := GCBits(false, false)])
    {
      hide QueueExact, WellFormed, ItemsInGraph, Spared, GCMarkStack.Contents, GCMarkStack.Valid, Inv, TriColour.Work;
      assert TriColour.Work(Now()) == TriColour.Work(Now().(b := bits[o := GCBits(false, false)])) by { SameWork(o); }
      heap, bits, memEnd := heap[o := record], bits[o := GCBits(false, false)], if memEnd <= o then o + 1 else memEnd;
    }

    lemma SameWork(o: Obj)
      ensures TriColour.Work(Now()) == TriColour.Work(Now().(b := bits[o := GCBits(false, false)]))
    {
    }

    /** Roots are written without a barrier. */
    method WriteRoot(r: nat, i: nat, w: Word)
      requires Ready() && CanDo(G(), StoreRoot(r, i, w)) && w !in garbage
      modifies this`roots
      ensures Ready()
      ensures roots == old(roots)[r := old(roots)[r].(fields := old(roots)[r].fields[i := w])]
      ensures OnlyRootWord(old(roots), roots, r, i, w)
    {
      hide QueueExact, Spared, GCMarkStack.Contents, GCMarkStack.Valid, Inv;
      RootStillSpares(r, i, w);
      OtherRootsKeepInv(G(), Now(), roots[r := roots[r].(fields := roots[r].fields[i := w])], stack);
      roots := roots[r := roots[r].(fields := roots[r].fields[i := w])];
    }

    lemma RootStillSpares(r: nat, i: nat, w: Word)
      requires Valid() && r < |roots| && i < |roots[r].fields| && w !in garbage
      ensures Spared(Graph(heap, roots[r := roots[r].(fields := roots[r].fields[i := w])], stack), bits,
                     m_incrementalWork.Contents(), garbage)
    {
      var g' := Graph(heap, roots[r := roots[r].(fields := roots[r].fields[i := w])], stack);
      forall base: Base, k: nat | !base.ObjectBase? && k < |Fields(g', base)| ensures Fields(g', base)[k] !in garbage {
        assert Fields(g', base)[k] == w || Fields(g', base)[k] == Fields(G(), base)[k];
      }
      RootsSpare(G(), bits, m_incrementalWork.Contents(), g', garbage);
    }

    // ----- Whole runs

    /** One step of the mutator, or one increment that the allocation budget triggers. */
    method Perform(step: MutatorStep)
      requires Ready() && marking && CanDo(G(), step) && Avoids(step, garbage)
      modifies this`heap, this`memEnd, this`roots, this`bits, this`m_markStackOverflow, m_incrementalWork, m_barrierWork
      ensures Ready() && G() == Do(old(G()), step)
      ensures step.Increment? && 0 < step.slices && old(m_incrementalWork.Contents()) != [] ==>
                Closer(G(), old(Now()), Now())
    {
      hide Holding, GCMarkStack.Contents, GCMarkStack.Valid, Inv;
      match step
      case Store(c, i, w, nullChecked) => WriteBarrier(c, i, w, nullChecked);
      case Allocate(o, words, ptrs, exact) => Alloc(o, words, ptrs, exact);
      case StoreRoot(r, i, w) => WriteRoot(r, i, w);
      case Increment(slices) => IncrementalMark(slices, {});
    }

    /** Any interleaving of mutator steps and increments of marking. */
    method Run(script: seq<MutatorStep>)
      requires Ready() && marking && forall k :: 0 <= k < |script| ==> Avoids(script[k], garbage)
      modifies this`heap, this`memEnd, this`roots, this`bits, this`m_markStackOverflow, m_incrementalWork, m_barrierWork
      ensures Ready() && marking && G() == DoAll(old(G()), script)
    {
      hide Holding, GCMarkStack.Contents, GCMarkStack.Valid, Inv, Ready;
      var n := 0;
      while n < |script|
        invariant n <= |script|
        invariant Ready() && marking && G() == DoAll(old(G()), script[..n])
      {
        assert script[..n + 1][..n] == script[..n];
        if CanDo(G(), script[n]) {
          Perform(script[n]);
        }
        n := n + 1;
      }
      assert script[..n] == script;
    }

    /** A whole collection: for every interleaving of stores, allocations, root writes and increments
        between its start and its end, it keeps all objects that the program can reach at the end,
        changes none of the objects it keeps, and frees what the program could not reach at the start
        (and thus does not store either). */
    method Collect(script: seq<MutatorStep>, nativeStack: seq<Word>, scanStack: bool, slices: nat, passes: nat,
                   ghost unreachable: set<Obj>)
      returns (done: bool)
      requires Ready() && !marking && Sealed(G(), unreachable)
      requires forall k :: 0 <= k < |script| ==> Avoids(script[k], unreachable)
      requires forall i :: 0 <= i < |nativeStack| ==> nativeStack[i] !in unreachable
      modifies this, m_incrementalWork, m_barrierWork
      ensures done ==> Ready() && !marking
      ensures done ==>
                var g := DoAll(old(G()), script).(stack := nativeStack);
                && (forall o :: Reachable(g, scanStack, o) ==> o in heap)
                && (forall o :: o in heap ==> o in g.heap && heap[o] == g.heap[o])
                && roots == g.roots
      ensures done ==> forall o :: o in unreachable ==> o !in heap
      // it completes if the tails of the stack roots leave room for a word in one segment of the mark stack, and
      // does not if they exceed it and no second one can be had
      ensures old(StackWords(scanStack)) + 1 <= m_incrementalWork.segmentWords ==>
                passes >= |DoAll(old(G()), script).heap| + 2 ==> done
      ensures m_incrementalWork.allowance == 1 && old(StackWords(scanStack)) > m_incrementalWork.segmentWords ==> !done
    {
      hide Holding, GCMarkStack.Contents, GCMarkStack.Valid, Inv, Ready, Reachable, DoAll, RootsWords,
           TriColour.StackWords;
      StackWordsKept(G(), script, splitThreshold, scanStack);
      StartIncrementalMark(slices, unreachable);
      Run(script);
      done := FinishIncrementalMark(nativeStack, scanStack, passes);
    }

    lemma Domain(hand: set<Obj>)
      requires Holding(hand)
      ensures bits.Keys == heap.Keys && 0 < splitThreshold && 0 !in heap
      ensures forall o :: o in heap ==> o < memEnd
      ensures forall o :: o in heap && !heap[o].containsPointers ==> heap[o].fields == []
    {
    }

    lemma NothingSealed()
      ensures Sealed(G(), {})
    {
    }

    /** Outside marking all objects are white. */
    lemma Quiet()
      requires Ready() && !marking
      ensures bits.Keys == heap.Keys && forall o :: o in bits ==> White(bits, o)
    {
    }

    lemma StillWhite()
      requires Dormant()
      ensures bits.Keys == heap.Keys && forall o :: o in bits ==> White(bits, o)
    {
    }

    /** The range to be watched is chosen. */
    ghost method Watch(hot: Base)
      requires Ready()
      modifies this`hot
      ensures Ready() && this.hot == hot
    {
      hide WellFormed, Spared, QueueExact, ItemsInGraph, GCMarkStack.Contents, GCMarkStack.Valid, Tri;
      this.hot := hot;
    }

    /** Change the bits of an object that is on no stack. */
    method TakeInHand(o: Obj, c: GCBits)
      requires Holding({}) && o in bits && !bits[o].queued && !(c.mark && c.queued)
      requires o !in garbage
      modifies this`bits
      ensures Holding({o}) && (!c.queued ==> Holding({}))
      ensures bits == old(bits)[o := c]
    {
      hide QueueExact, WellFormed, Spared;
      SparedRecoloured(G(), bits, m_incrementalWork.Contents(), o, c, garbage);
      Unqueued(bits, Work(), o);
      Recoloured(G(), bits, Work(), o, c);
      bits := bits[o := c];
    }
  }

  // ----- When marking does not come to an end

  function Nulls(n: nat): (s: seq<Word>)
    ensures |s| == n && forall i :: 0 <= i < n ==> s[i] == 0
  {
    seq(n, i => 0)
  }

  /** Roots of the given shapes, without any pointer. */
  function Blank(roots: seq<Root>): (r: seq<Root>)
    ensures |r| == |roots|
    ensures forall i :: 0 <= i < |roots| ==>
      SameRootShape(roots[i], r[i]) && r[i].fields == Nulls(|roots[i].fields|)
  {
    seq(|roots|, i requires 0 <= i < |roots| => roots[i].(fields := Nulls(|roots[i].fields|)))
  }

  /** The last large root in stack memory. */
  method LastLargeRoot(roots: seq<Root>, threshold: nat) returns (h: nat)
    requires RootsWords(roots, threshold, |roots|, true) > 0
    ensures h < |roots| && RootWords(roots[h], threshold, true) == 6
    ensures RootsWords(roots, threshold, h + 1, true) == RootsWords(roots, threshold, |roots|, true)
  {
    h := |roots|;
    while RootWords(roots[h - 1], threshold, true) == 0
      decreases h
      invariant 0 < h <= |roots| && RootsWords(roots, threshold, h, true) == RootsWords(roots, threshold, |roots|, true)
    {
      h := h - 1;
    }
    h := h - 1;
  }

  /** One large white object, to which nothing points but the first word of 'hot'. */
  ghost predicate OneObject(g: Graph, b: Colouring, hot: Base, o: Obj) {
    && IsAddress(o) && !hot.ObjectBase? && b.Keys == g.heap.Keys == {o} && White(b, o)
    && g.heap[o].containsPointers && Large(g.heap[o])
    && (forall i :: 0 <= i < |g.heap[o].fields| ==> g.heap[o].fields[i] == 0)
    && (forall r, i :: 0 <= r < |g.roots| && 0 <= i < |g.roots[r].fields| ==>
          g.roots[r].fields[i] == if RootBase(r) == hot && i == 0 then o else 0)
    && (forall i :: 0 <= i < |g.stack| ==> g.stack[i] == if StackBase == hot && i == 0 then o else 0)
  }

  lemma OneObjectStill(g: Graph, b: Colouring, b': Colouring, hot: Base, o: Obj)
    requires OneObject(g, b, hot, o) && b'.Keys == g.heap.Keys && forall x :: x in b' ==> White(b', x)
    ensures OneObject(g, b', hot, o)
  {
  }

  lemma OneObjectStarves(g: Graph, b: Colouring, hot: Base, o: Obj)
    requires OneObject(g, b, hot, o)
    ensures Starving(g, b, hot)
  {
    forall base: Base, i: nat | i < |Fields(g, base)| && (base != hot || i != 0) ensures Fields(g, base)[i] !in g.heap {
      match base
      case ObjectBase(x) => assert g.heap[x].fields[i] == 0;
      case RootBase(r) => assert g.roots[r].fields[i] == 0;
      case StackBase => assert g.stack[i] == 0;
    }
    if Fields(g, hot) != [] {
      assert Fields(g, hot)[0] == o;
    }
  }

  /** The words of the smallest large object. */
  const LARGE_WORDS: nat := 247

  /** The tails of the stack roots leave no word of the only segment: then there is a heap, just with one large object,
      in which marking has begun properly and never ends, for roots of any number and shape. */
  method StarvingHeap(splitThreshold: nat, segmentWords: nat, shapes: seq<Root>, scanStack: bool, slices: nat)
    returns (gc: GC, nativeStack: seq<Word>)
    requires 0 < splitThreshold && 7 <= segmentWords
    requires StackWords(shapes, splitThreshold, scanStack) >= segmentWords
    ensures fresh(gc) && gc.Ready() && gc.marking && gc.garbage == {}
    ensures gc.splitThreshold == splitThreshold
    ensures gc.m_incrementalWork.segmentWords == segmentWords && gc.m_incrementalWork.allowance == 1
    ensures |gc.roots| == |shapes| && forall r :: 0 <= r < |shapes| ==> SameRootShape(shapes[r], gc.roots[r])
    ensures gc.StackWords(scanStack) > segmentWords || gc.StarvesOn(nativeStack, scanStack)
  {
    hide GC.Ready, GC.Dormant, Starving, Fills, ColdRoots, RootsWords, Sealed, OneObject;
    gc := new GC(splitThreshold, segmentWords, 1, Blank(shapes));
    SameShapeSameWords(shapes, gc.roots, splitThreshold, |shapes|, true);
    gc.Alloc(8, LARGE_WORDS, true, true);
    nativeStack := PointFromStack(gc, shapes, scanStack);
    gc.NothingSealed();
    OneObjectStarves(gc.G(), gc.bits, gc.hot, 8);
    ghost var g, b := gc.G().(stack := nativeStack), gc.bits;
    gc.StartIncrementalMark(slices, {});
    gc.StillWhite();
    OneObjectStill(g, b, gc.bits, gc.hot, 8);
    OneObjectStarves(g, gc.bits, gc.hot, 8);
  }

  /** The last range that will be queued gets the pointer. */
  method PointFromStack(gc: GC, shapes: seq<Root>, scanStack: bool) returns (nativeStack: seq<Word>)
    requires gc.Ready() && !gc.marking && gc.roots == Blank(shapes) && gc.stack == [] && gc.garbage == {}
    requires gc.heap == map[8 := NewObject(LARGE_WORDS, true, true)]
    requires StackWords(shapes, gc.splitThreshold, scanStack) >= gc.m_incrementalWork.segmentWords >= 7
    requires 0 < gc.splitThreshold
    modifies gc`roots, gc`hot
    ensures gc.Ready() && !gc.marking && |gc.roots| == |shapes|
    ensures forall r :: 0 <= r < |shapes| ==> SameRootShape(shapes[r], gc.roots[r])
    ensures OneObject(gc.G(), gc.bits, gc.hot, 8) && OneObject(gc.G().(stack := nativeStack), gc.bits, gc.hot, 8)
    ensures ColdRoots(gc.G(), false, gc.hot)
    ensures gc.StackWords(scanStack) == StackWords(shapes, gc.splitThreshold, scanStack)
    ensures gc.StackWords(scanStack) == gc.m_incrementalWork.segmentWords ==>
              Fills(gc.G().(stack := nativeStack), gc.splitThreshold, gc.m_incrementalWork.segmentWords,
                    scanStack, gc.hot)
  {
    hide GC.Ready, RootsWords;
    gc.Quiet();
    nativeStack := [];
    if scanStack {
      nativeStack := [8] + Nulls(gc.splitThreshold);
      gc.Watch(StackBase);
    } else {
      SameShapeSameWords(shapes, gc.roots, gc.splitThreshold, |shapes|, true);
      var h := LastLargeRoot(gc.roots, gc.splitThreshold);
      ghost var blank := gc.roots;
      gc.WriteRoot(h, 0, 8);
      gc.Watch(RootBase(h));
      SameShapeSameWords(blank, gc.roots, gc.splitThreshold, h + 1, true);
    }
    SameShapeSameWords(shapes, gc.roots, gc.splitThreshold, |shapes|, true);
  }
}
