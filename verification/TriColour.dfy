/** The colours of MMgc's incremental marker and the invariant that connects them to the
    object graph and to the pending mark work.  Everything here is about values; the marker
    itself is the class in Marker.dfy. */
module TriColour {
  import opened MarkStack

  type Obj = nat
  /** A machine word found in an object, a root or the stack; it is a pointer if an object lives there. */
  type Word = nat

  /** Objects start at multiples of eight; other words are data, to the collector as to the program. */
  predicate IsAddress(w: Word) {
    w != 0 && w % 8 == 0
  }

  datatype Object = Object(fields: seq<Word>, containsPointers: bool, exact: bool)

  /** The largest object, in bytes, that shares its block with others. */
  const LARGEST_ALLOC: nat := 1968

  predicate Large(o: Object) {
    8 * |o.fields| > LARGEST_ALLOC
  }

  datatype Root = Root(fields: seq<Word>, exact: bool, isStackMemory: bool)

  datatype Graph = Graph(heap: map<Obj, Object>, roots: seq<Root>, stack: seq<Word>)

  /** kMark and kQueued; the pattern with both bits set means "free" and is never in a colouring. */
  datatype GCBits = GCBits(mark: bool, queued: bool)

  type Colouring = map<Obj, GCBits>

  predicate White(b: Colouring, o: Word) {
    o in b && !b[o].mark && !b[o].queued
  }

  predicate Black(b: Colouring, o: Word) {
    o in b && b[o].mark && !b[o].queued
  }

  ghost predicate HasBase(g: Graph, base: Base) {
    match base
    case ObjectBase(o) => o in g.heap
    case RootBase(r) => r < |g.roots|
    case StackBase => true
  }

  function Fields(g: Graph, base: Base): seq<Word> {
    match base
    case ObjectBase(o) => if o in g.heap then g.heap[o].fields else []
    case RootBase(r) => if r < |g.roots| then g.roots[r].fields else []
    case StackBase => g.stack
  }

  ghost predicate WellFormed(g: Graph, b: Colouring) {
    && b.Keys == g.heap.Keys
    && (forall o :: o in g.heap ==> IsAddress(o))
    && (forall o :: o in g.heap ==> !(b[o].mark && b[o].queued))
    && (forall o :: o in g.heap && !g.heap[o].containsPointers ==> g.heap[o].fields == [])
    && (forall o, i :: o in g.heap && 0 <= i < |g.heap[o].fields| ==>
          IsAddress(g.heap[o].fields[i]) ==> g.heap[o].fields[i] in g.heap)
  }

  /** An object is on the two stacks exactly once if it is queued (and not held by the marker at
      this moment), and not at all otherwise. */
  ghost predicate QueueExact(b: Colouring, work: multiset<WorkItem>, hand: set<Obj>) {
    forall o: Obj :: work[GCObject(o)] == if o in b && b[o].queued && o !in hand then 1 else 0
  }

  ghost predicate ItemsInGraph(g: Graph, items: seq<WorkItem>) {
    forall base: Base, from: nat :: Chunk(base, from) in items ==> HasBase(g, base) && from <= |Fields(g, base)|
  }

  /** Word i of the base belongs to a tail that is still pending on the mark stack. */
  ghost predicate Covered(work: multiset<WorkItem>, base: Base, i: nat) {
    exists from: nat :: from <= i && Chunk(base, from) in work
  }

  ghost predicate SlotDone(g: Graph, b: Colouring, work: multiset<WorkItem>, base: Base, i: nat)
    requires i < |Fields(g, base)|
  {
    !White(b, Fields(g, base)[i]) || Covered(work, base, i)
  }

  ghost predicate ClosedRange(g: Graph, b: Colouring, work: multiset<WorkItem>, base: Base, lo: nat, hi: nat)
    requires hi <= |Fields(g, base)|
  {
    forall i :: lo <= i < hi ==> SlotDone(g, b, work, base, i)
  }

  ghost predicate Closed(g: Graph, b: Colouring, work: multiset<WorkItem>, base: Base) {
    ClosedRange(g, b, work, base, 0, |Fields(g, base)|)
  }

  /** The tri-colour invariant, weakened for pending tails: black objects outside 'excl', and the
      roots that have been scanned, show no white object except through a pending tail. */
  ghost predicate Tri(g: Graph, b: Colouring, work: multiset<WorkItem>, excl: set<Obj>, scanned: set<Base>) {
    && (forall o :: Black(b, o) && o !in excl ==> Closed(g, b, work, ObjectBase(o)))
    && (forall s :: s in scanned ==> Closed(g, b, work, s))
  }

  /** What every step of the marker does to colours and pending tails: nothing becomes white,
      only 'novel' or pointer-free objects become black, no tail is lost. */
  ghost predicate Step(g: Graph, b: Colouring, work: multiset<WorkItem>,
                       b': Colouring, work': multiset<WorkItem>, novel: set<Obj>) {
    && b'.Keys == b.Keys
    && (forall o :: White(b', o) ==> White(b, o))
    && (forall o :: Black(b', o) ==> Black(b, o) || o in novel || Fields(g, ObjectBase(o)) == [])
    && (forall base: Base, from: nat :: Chunk(base, from) in work ==> Chunk(base, from) in work')
  }

  lemma StepCompose(g: Graph, b0: Colouring, w0: multiset<WorkItem>, b1: Colouring, w1: multiset<WorkItem>,
                    b2: Colouring, w2: multiset<WorkItem>, n1: set<Obj>, n2: set<Obj>)
    requires Step(g, b0, w0, b1, w1, n1) && Step(g, b1, w1, b2, w2, n2)
    ensures Step(g, b0, w0, b2, w2, n1 + n2)
  {
  }

  lemma RangeKept(g: Graph, b: Colouring, work: multiset<WorkItem>, b': Colouring, work': multiset<WorkItem>,
                  novel: set<Obj>, base: Base, lo: nat, hi: nat)
    requires Step(g, b, work, b', work', novel)
    requires hi <= |Fields(g, base)| && ClosedRange(g, b, work, base, lo, hi)
    ensures ClosedRange(g, b', work', base, lo, hi)
  {
    forall i | lo <= i < hi ensures SlotDone(g, b', work', base, i) {
      assert SlotDone(g, b, work, base, i);
      if Covered(work, base, i) {
        var from: nat :| from <= i && Chunk(base, from) in work;
        assert Chunk(base, from) in work';
      }
    }
  }

  /** Marker steps carry the invariant along; newly black objects still have to be traced. */
  lemma TriKept(g: Graph, b: Colouring, work: multiset<WorkItem>, b': Colouring, work': multiset<WorkItem>,
                novel: set<Obj>, excl: set<Obj>, scanned: set<Base>)
    requires Step(g, b, work, b', work', novel)
    requires Tri(g, b, work, excl, scanned)
    ensures Tri(g, b', work', excl + novel, scanned)
  {
    forall o | Black(b', o) && o !in excl + novel
      ensures Closed(g, b', work', ObjectBase(o))
    {
      if Black(b, o) {
        RangeKept(g, b, work, b', work', novel, ObjectBase(o), 0, |Fields(g, ObjectBase(o))|);
      }
    }
    forall s | s in scanned ensures Closed(g, b', work', s) {
      RangeKept(g, b, work, b', work', novel, s, 0, |Fields(g, s)|);
    }
  }

  lemma RangeWithTail(g: Graph, b: Colouring, work: multiset<WorkItem>, base: Base, lo: nat, from: nat)
    requires from <= |Fields(g, base)| && ClosedRange(g, b, work, base, lo, from)
    requires Chunk(base, from) in work
    ensures ClosedRange(g, b, work, base, lo, |Fields(g, base)|)
  {
    forall i | lo <= i < |Fields(g, base)| ensures SlotDone(g, b, work, base, i) {
      if i < from {
        assert SlotDone(g, b, work, base, i);
      } else {
        assert Covered(work, base, i);
      }
    }
  }

  // ----- Pushing and colouring one object

  lemma PushQueued(b: Colouring, items: seq<WorkItem>, rest: multiset<WorkItem>, o: Obj)
    requires QueueExact(b, multiset(items) + rest, {o}) && o in b && b[o].queued
    ensures QueueExact(b, multiset(items + [GCObject(o)]) + rest, {})
  {
    assert multiset(items + [GCObject(o)]) == multiset(items) + multiset{GCObject(o)};
  }

  lemma PushInert(b: Colouring, items: seq<WorkItem>, rest: multiset<WorkItem>, item: WorkItem, hand: set<Obj>)
    requires QueueExact(b, multiset(items) + rest, hand) && !item.GCObject?
    ensures QueueExact(b, multiset(items + [item]) + rest, hand)
  {
    assert multiset(items + [item]) == multiset(items) + multiset{item};
  }

  lemma ItemsMore(g: Graph, items: seq<WorkItem>, item: WorkItem)
    requires ItemsInGraph(g, items)
    requires item.Chunk? ==> HasBase(g, item.base) && item.from <= |Fields(g, item.base)|
    ensures ItemsInGraph(g, items + [item])
  {
  }

  lemma PopQueued(b: Colouring, items: seq<WorkItem>, rest: multiset<WorkItem>, o: Obj)
    requires QueueExact(b, multiset(items + [GCObject(o)]) + rest, {})
    ensures QueueExact(b, multiset(items) + rest, {o}) && o in b && b[o].queued
  {
    assert multiset(items + [GCObject(o)]) == multiset(items) + multiset{GCObject(o)};
    assert (multiset(items + [GCObject(o)]) + rest)[GCObject(o)] >= 1;
  }

  lemma PopInert(b: Colouring, items: seq<WorkItem>, rest: multiset<WorkItem>, item: WorkItem, hand: set<Obj>)
    requires QueueExact(b, multiset(items + [item]) + rest, hand) && !item.GCObject?
    ensures QueueExact(b, multiset(items) + rest, hand)
  {
    assert multiset(items + [item]) == multiset(items) + multiset{item};
  }

  /** Take an object into the hand, or put it down, while it is on no stack. */
  lemma Recoloured(g: Graph, b: Colouring, work: multiset<WorkItem>, o: Obj, c: GCBits)
    requires WellFormed(g, b) && QueueExact(b, work, {o}) && o in b && !(c.mark && c.queued)
    ensures WellFormed(g, b[o := c]) && QueueExact(b[o := c], work, {o})
    ensures !c.queued ==> QueueExact(b[o := c], work, {})
  {
  }

  // ----- Garbage

  ghost predicate Outside(base: Base, garbage: set<Obj>) {
    base.ObjectBase? ==> base.obj !in garbage
  }

  /** No object outside the set, no root and no stack word points to an object of the set. */
  ghost predicate Sealed(g: Graph, garbage: set<Obj>) {
    && garbage <= g.heap.Keys
    && (forall base: Base, i: nat :: Outside(base, garbage) && i < |Fields(g, base)| ==> Fields(g, base)[i] !in garbage)
  }

  /** The objects of a sealed set have not been touched by the marker. */
  ghost predicate Spared(g: Graph, b: Colouring, items: seq<WorkItem>, garbage: set<Obj>) {
    && Sealed(g, garbage)
    && (forall o :: o in garbage ==> White(b, o))
    && (forall base: Base, from: nat :: Chunk(base, from) in items ==> Outside(base, garbage))
  }

  lemma SparedMore(g: Graph, b: Colouring, items: seq<WorkItem>, item: WorkItem, garbage: set<Obj>)
    requires Spared(g, b, items, garbage) && (item.Chunk? ==> Outside(item.base, garbage))
    ensures Spared(g, b, items + [item], garbage)
  {
  }

  lemma SparedLess(g: Graph, b: Colouring, items: seq<WorkItem>, item: WorkItem, garbage: set<Obj>)
    requires Spared(g, b, items + [item], garbage)
    ensures Spared(g, b, items, garbage) && (item.Chunk? ==> Outside(item.base, garbage))
  {
    assert item in items + [item];
    forall base: Base, from: nat | Chunk(base, from) in items ensures Outside(base, garbage) {
      assert Chunk(base, from) in items + [item];
    }
  }

  lemma SparedMoved(g: Graph, b: Colouring, moved: seq<WorkItem>, items: seq<WorkItem>, garbage: set<Obj>)
    requires Spared(g, b, items, garbage) && forall item :: item in moved ==> item.GCObject?
    ensures Spared(g, b, moved + items, garbage)
  {
  }

  lemma SparedRecoloured(g: Graph, b: Colouring, items: seq<WorkItem>, o: Obj, c: GCBits, garbage: set<Obj>)
    requires Spared(g, b, items, garbage) && (o !in garbage || c == GCBits(false, false)) && o in b
    ensures Spared(g, b[o := c], items, garbage)
  {
  }

  lemma SparedNotWhite(g: Graph, b: Colouring, items: seq<WorkItem>, garbage: set<Obj>)
    requires Spared(g, b, items, garbage)
    ensures forall o :: o in b && (b[o].mark || b[o].queued) ==> o !in garbage
  {
  }

  lemma SparedField(g: Graph, b: Colouring, items: seq<WorkItem>, base: Base, i: nat, garbage: set<Obj>)
    requires Spared(g, b, items, garbage) && Outside(base, garbage) && i < |Fields(g, base)|
    ensures Fields(g, base)[i] !in garbage
  {
  }

  /** The objects that the program cannot reach form a sealed set. */
  lemma UnreachableSealed(g: Graph, garbage: set<Obj>)
    requires garbage == set o | o in g.heap && !Reachable(g, true, o)
    ensures Sealed(g, garbage)
  {
    forall base: Base, i: nat | Outside(base, garbage) && i < |Fields(g, base)| && Fields(g, base)[i] in g.heap
      ensures Reachable(g, true, Fields(g, base)[i])
    {
      var p := Fields(g, base)[i];
      if base.ObjectBase? {
        var path :| path != [] && IsPath(g, path) && RootWord(g, true, path[0]) && path[|path| - 1] == base.obj;
        assert IsPath(g, path + [p]) && (path + [p])[0] == path[0];
      } else {
        assert IsPath(g, [p]) && RootWord(g, true, [p][0]);
      }
    }
  }

  lemma NotBoth(g: Graph, b: Colouring, o: Obj)
    requires WellFormed(g, b) && o in b && b[o].queued
    ensures !b[o].mark
  {
  }

  lemma Unqueued(b: Colouring, work: multiset<WorkItem>, o: Obj)
    requires QueueExact(b, work, {}) && (o in b ==> !b[o].queued)
    ensures QueueExact(b, work, {o})
  {
  }

  // ----- Termination of marking

  ghost function Unmarked(b: Colouring): set<Obj> {
    set o | o in b && !b[o].mark
  }

  ghost function Whites(b: Colouring): set<Obj> {
    set o | o in b && White(b, o)
  }

  ghost predicate MarksKept(b: Colouring, b': Colouring) {
    b'.Keys == b.Keys && forall o :: o in b && b[o].mark ==> b'[o].mark
  }

  function ItemWeight(g: Graph, item: WorkItem): nat {
    match item
    case GCObject(_) => 1
    case Protector(_) => 1
    case Chunk(base, from) => 1 + if from <= |Fields(g, base)| then |Fields(g, base)| - from else 0
  }

  function Weight(g: Graph, items: seq<WorkItem>): nat {
    if items == [] then 0 else Weight(g, items[..|items| - 1]) + ItemWeight(g, items[|items| - 1])
  }

  lemma WeightPush(g: Graph, items: seq<WorkItem>, item: WorkItem)
    ensures Weight(g, items + [item]) == Weight(g, items) + ItemWeight(g, item)
  {
    assert (items + [item])[..|items|] == items;
  }

  ghost function Load(g: Graph, b: Colouring, items: seq<WorkItem>): nat {
    2 * |Whites(b)| + Weight(g, items)
  }

  /** Marking goes on at most by 'extra' units of work, unless an object got its mark. */
  ghost predicate NoHeavier(g: Graph, b: Colouring, items: seq<WorkItem>, b': Colouring, items': seq<WorkItem>,
                            extra: int) {
    || Unmarked(b') < Unmarked(b)
    || (Unmarked(b') == Unmarked(b) && Load(g, b', items') <= Load(g, b, items) + extra)
  }

  /** The marker's state at one moment: colours, incremental work, barrier work, overflow flag. */
  datatype View = View(b: Colouring, items: seq<WorkItem>, rest: multiset<WorkItem>, overflow: bool)

  function Work(v: View): multiset<WorkItem> {
    multiset(v.items) + v.rest
  }

  /** What scanning does, apart from the words that are scanned: no object turns white or loses its
      mark, only 'novel' objects and objects without fields turn black, no tail is lost, the stack only
      grows, by objects and by 'words' words of other items, and an overflow is signalled only when
      the stack is full.  Termination: at most 'extra' units of work come on top. */
  ghost predicate Scans(g: Graph, segmentWords: nat, v: View, v': View, novel: set<Obj>, words: nat, extra: nat) {
    && Step(g, v.b, Work(v), v'.b, Work(v'), novel)
    && MarksKept(v.b, v'.b)
    && v.items <= v'.items && v'.rest == v.rest
    && NonObjectWords(v'.items) <= NonObjectWords(v.items) + words
    && (!v'.overflow ==> NonObjectWords(v'.items) == NonObjectWords(v.items) + words)
    && (v.overflow ==> v'.overflow)
    && (v'.overflow && !v.overflow ==>
          HasObject(v'.items) || NonObjectWords(v.items) + words + 1 > segmentWords)
    && NoHeavier(g, v.b, v.items, v'.b, v'.items, extra)
  }

  /** Tracing words pushes objects only. */
  ghost predicate Traces(g: Graph, segmentWords: nat, v: View, v': View) {
    Scans(g, segmentWords, v, v', {}, 0, 0)
  }

  lemma TracesNothing(g: Graph, segmentWords: nat, v: View)
    ensures Traces(g, segmentWords, v, v)
  {
  }

  lemma ScansCompose(g: Graph, segmentWords: nat, v0: View, v1: View, v2: View,
                     n1: set<Obj>, n2: set<Obj>, w1: nat, w2: nat, e1: nat, e2: nat)
    requires Scans(g, segmentWords, v0, v1, n1, w1, e1) && Scans(g, segmentWords, v1, v2, n2, w2, e2)
    ensures Scans(g, segmentWords, v0, v2, n1 + n2, w1 + w2, e1 + e2)
  {
    StepCompose(g, v0.b, Work(v0), v1.b, Work(v1), v2.b, Work(v2), n1, n2);
    if HasObject(v1.items) {
      var o :| GCObject(o) in v1.items;
      assert GCObject(o) in v2.items;
    }
  }

  lemma ScansKeepMarks(g: Graph, segmentWords: nat, v: View, v': View, novel: set<Obj>, words: nat, extra: nat)
    requires Scans(g, segmentWords, v, v', novel, words, extra)
    ensures Unmarked(v'.b) <= Unmarked(v.b) && MarksKept(v.b, v'.b) && v'.rest == v.rest
    ensures NonObjectWords(v'.items) <= NonObjectWords(v.items) + words
    ensures !v'.overflow ==> NonObjectWords(v'.items) == NonObjectWords(v.items) + words
    ensures forall o :: o in v.b && !v.b[o].mark && v'.b[o].mark ==> Unmarked(v'.b) < Unmarked(v.b)
    ensures v.overflow ==> v'.overflow
    ensures forall base, from :: Chunk(base, from) in Work(v) ==> Chunk(base, from) in Work(v')
  {
    forall o | o in v.b && !v.b[o].mark && v'.b[o].mark ensures Unmarked(v'.b) < Unmarked(v.b) {
      assert o in Unmarked(v.b);
    }
  }

  lemma TracesCompose(g: Graph, segmentWords: nat, v0: View, v1: View, v2: View)
    requires Traces(g, segmentWords, v0, v1) && Traces(g, segmentWords, v1, v2)
    ensures Traces(g, segmentWords, v0, v2)
  {
    ScansCompose(g, segmentWords, v0, v1, v2, {}, {}, 0, 0, 0, 0);
    var none: set<Obj> := {};
    assert none + none == none;
  }

  lemma ScansKeepRange(g: Graph, segmentWords: nat, v: View, v': View, novel: set<Obj>, words: nat, extra: nat,
                       base: Base, lo: nat, hi: nat)
    requires Scans(g, segmentWords, v, v', novel, words, extra)
    requires hi <= |Fields(g, base)|
    requires v.overflow || ClosedRange(g, v.b, Work(v), base, lo, hi)
    ensures v'.overflow || ClosedRange(g, v'.b, Work(v'), base, lo, hi)
  {
    if !v'.overflow {
      RangeKept(g, v.b, Work(v), v'.b, Work(v'), novel, base, lo, hi);
    }
  }

  /** A white object is queued. */
  lemma TracesGrey(g: Graph, segmentWords: nat, v: View, o: Obj)
    requires White(v.b, o)
    ensures Traces(g, segmentWords, v, v.(b := v.b[o := GCBits(false, true)], items := v.items + [GCObject(o)]))
  {
    var b', items' := v.b[o := GCBits(false, true)], v.items + [GCObject(o)];
    assert Whites(b') == Whites(v.b) - {o};
    assert Unmarked(b') == Unmarked(v.b);
    WeightPush(g, v.items, GCObject(o));
    NonObjectWordsPush(v.items, GCObject(o));
    assert multiset(items') == multiset(v.items) + multiset{GCObject(o)};
  }

  /** A white object could not be queued. */
  lemma TracesRefused(g: Graph, segmentWords: nat, v: View)
    requires TotalWords(v.items) + 1 > segmentWords
    ensures Traces(g, segmentWords, v, v.(overflow := true))
  {
    NonObjectWordsIsTotal(v.items);
  }

  /** A chunk or a protector is pushed. */
  lemma ScansPushed(g: Graph, segmentWords: nat, v: View, item: WorkItem)
    requires !item.GCObject?
    ensures Scans(g, segmentWords, v, v.(items := v.items + [item]), {}, Words(item), ItemWeight(g, item))
  {
    WeightPush(g, v.items, item);
    NonObjectWordsPush(v.items, item);
    assert multiset(v.items + [item]) == multiset(v.items) + multiset{item};
  }

  lemma ScansRefused(g: Graph, segmentWords: nat, v: View, item: WorkItem)
    requires TotalWords(v.items) + Words(item) > segmentWords
    ensures Scans(g, segmentWords, v, v.(overflow := true), {}, Words(item), ItemWeight(g, item))
  {
    NonObjectWordsIsTotal(v.items);
  }

  /** An object gets its mark: a white one without fields, or one that is about to be traced. */
  lemma ScansMarked(g: Graph, segmentWords: nat, v: View, o: Obj, novel: set<Obj>)
    requires o in v.b && (o in novel || Fields(g, ObjectBase(o)) == [])
    ensures var v' := v.(b := v.b[o := GCBits(true, false)]);
            Scans(g, segmentWords, v, v', novel, 0, 0)
  {
    var b' := v.b[o := GCBits(true, false)];
    if !v.b[o].mark {
      assert o in Unmarked(v.b);
    } else {
      assert Unmarked(b') == Unmarked(v.b);
      assert Whites(b') == Whites(v.b);
    }
  }

  // ----- One item of mark work

  /** The tri-colour invariant holds, or an overflow is on record. */
  ghost predicate Inv(g: Graph, v: View, excl: set<Obj>, scanned: set<Base>) {
    v.overflow || Tri(g, v.b, Work(v), excl, scanned)
  }

  /** Progress of a pass that began with the unmarked objects u0 and no overflow on record: as long as
      nothing was marked, chunks and protectors leave room on the stack, so that an overflow comes with
      an object on the stack, which will be marked. */
  ghost predicate Pass(segmentWords: nat, v: View, u0: set<Obj>) {
    && Unmarked(v.b) <= u0
    && (Unmarked(v.b) < u0 || NonObjectWords(v.items) + 1 <= segmentWords)
    && (v.overflow ==> Unmarked(v.b) < u0 || HasObject(v.items))
  }

  /** What marking does over any number of items. */
  ghost predicate Marks(g: Graph, segmentWords: nat, v: View, v': View, excl: set<Obj>, scanned: set<Base>,
                        u0: set<Obj>) {
    && MarksKept(v.b, v'.b) && v'.rest == v.rest
    && (v.overflow ==> v'.overflow)
    && (Inv(g, v, excl, scanned) ==> Inv(g, v', excl, scanned))
    && (Pass(segmentWords, v, u0) ==> Pass(segmentWords, v', u0))
  }

  ghost predicate Lighter(g: Graph, v: View, v': View) {
    || Unmarked(v'.b) < Unmarked(v.b)
    || (Unmarked(v'.b) == Unmarked(v.b) && Load(g, v'.b, v'.items) < Load(g, v.b, v.items))
  }

  /** What is left to do on both stacks, and on objects that are still white. */
  ghost function Remaining(g: Graph, v: View): nat {
    Load(g, v.b, v.items) + |v.rest|
  }

  /** The marking is nearer to its end: more objects are marked, or as many and less is left to do. */
  ghost predicate Closer(g: Graph, v: View, v': View) {
    || Unmarked(v'.b) < Unmarked(v.b)
    || (Unmarked(v'.b) == Unmarked(v.b) && Remaining(g, v') < Remaining(g, v))
  }

  ghost predicate NoFarther(g: Graph, v: View, v': View) {
    Closer(g, v, v') || (Unmarked(v'.b) == Unmarked(v.b) && Remaining(g, v') == Remaining(g, v))
  }

  lemma NoFartherBoth(g: Graph, v0: View, v1: View, v2: View)
    requires NoFarther(g, v0, v1) && NoFarther(g, v1, v2)
    ensures NoFarther(g, v0, v2)
    ensures Closer(g, v0, v1) || Closer(g, v1, v2) ==> Closer(g, v0, v2)
  {
    hide Unmarked, Load;
  }

  lemma LighterIsCloser(g: Graph, v: View, v': View)
    requires Lighter(g, v, v') && v'.rest == v.rest
    ensures Closer(g, v, v') && NoFarther(g, v, v')
  {
  }

  /** Objects weigh the same wherever they are. */
  lemma {:induction false} ObjectsWeigh(g: Graph, moved: seq<WorkItem>, items: seq<WorkItem>)
    requires forall item :: item in moved ==> item.GCObject?
    ensures Weight(g, moved + items) == |moved| + Weight(g, items)
  {
    if items != [] {
      ObjectsWeigh(g, moved, items[..|items| - 1]);
      assert (moved + items)[..|moved + items| - 1] == moved + items[..|items| - 1];
    } else if moved != [] {
      ObjectsWeigh(g, moved[..|moved| - 1], []);
      assert moved + [] == moved && moved[..|moved| - 1] + [] == moved[..|moved| - 1];
    }
  }

  lemma MarksCompose(g: Graph, segmentWords: nat, v0: View, v1: View, v2: View,
                     excl: set<Obj>, scanned: set<Base>, u0: set<Obj>)
    requires Marks(g, segmentWords, v0, v1, excl, scanned, u0)
    requires Marks(g, segmentWords, v1, v2, excl, scanned, u0)
    ensures Marks(g, segmentWords, v0, v2, excl, scanned, u0)
  {
  }

  lemma WithoutTop(g: Graph, v: View, items: seq<WorkItem>, item: WorkItem)
    requires v.items == items + [item]
    ensures Work(v) == Work(v.(items := items)) + multiset{item}
    ensures NonObjectWords(v.items) == NonObjectWords(items) + if item.GCObject? then 0 else Words(item)
    ensures Weight(g, v.items) == Weight(g, items) + ItemWeight(g, item)
    ensures !item.GCObject? && HasObject(v.items) ==> HasObject(items)
  {
    assert multiset(v.items) == multiset(items) + multiset{item};
    NonObjectWordsPush(items, item);
    WeightPush(g, items, item);
    if !item.GCObject? && HasObject(v.items) {
      var o :| GCObject(o) in v.items;
      assert GCObject(o) in items;
    }
  }

  /** A queued object is popped, marked and traced. */
  lemma ObjectDone(g: Graph, segmentWords: nat, v: View, items: seq<WorkItem>, o: Obj, v': View,
                   words: nat, extra: nat, excl: set<Obj>, scanned: set<Base>, u0: set<Obj>)
    requires v.items == items + [GCObject(o)] && o in v.b && !v.b[o].mark
    requires Scans(g, segmentWords, v.(items := items), v', {o}, words, extra)
    requires v'.b[o].mark
    requires v'.overflow || Closed(g, v'.b, Work(v'), ObjectBase(o))
    ensures Marks(g, segmentWords, v, v', excl, scanned, u0) && Lighter(g, v, v')
  {
    var v1 := v.(items := items);
    WithoutTop(g, v, items, GCObject(o));
    ScansKeepMarks(g, segmentWords, v1, v', {o}, words, extra);
    if !v'.overflow && Inv(g, v, excl, scanned) {
      assert Step(g, v.b, Work(v), v1.b, Work(v1), {});
      TriKept(g, v.b, Work(v), v1.b, Work(v1), {}, excl, scanned);
      TriKept(g, v1.b, Work(v1), v'.b, Work(v'), {o}, excl + {}, scanned);
      assert Tri(g, v'.b, Work(v'), excl, scanned);
    }
  }

  /** The tail of a range is popped and scanned. */
  lemma ChunkDone(g: Graph, segmentWords: nat, v: View, items: seq<WorkItem>, base: Base, from: nat, v': View,
                  words: nat, extra: nat, excl: set<Obj>, scanned: set<Base>, u0: set<Obj>)
    requires v.items == items + [Chunk(base, from)] && from <= |Fields(g, base)|
    requires Scans(g, segmentWords, v.(items := items), v', {}, words, extra)
    requires words <= 4 && extra <= |Fields(g, base)| - from
    requires v'.overflow || ClosedRange(g, v'.b, Work(v'), base, from, |Fields(g, base)|)
    ensures Marks(g, segmentWords, v, v', excl, scanned, u0) && Lighter(g, v, v')
  {
    var v1 := v.(items := items);
    WithoutTop(g, v, items, Chunk(base, from));
    ScansKeepMarks(g, segmentWords, v1, v', {}, words, extra);
    if HasObject(items) {
      var o :| GCObject(o) in items;
      assert GCObject(o) in v'.items;
    }
    if !v'.overflow && Inv(g, v, excl, scanned) {
      forall b | b in scanned || (b.ObjectBase? && Black(v.b, b.obj) && b.obj !in excl)
        ensures Closed(g, v'.b, Work(v'), b)
      {
        ChunkKeeps(g, segmentWords, v, items, base, from, v', words, extra, b);
      }
      assert Tri(g, v'.b, Work(v'), excl, scanned);
    }
  }

  lemma ChunkKeeps(g: Graph, segmentWords: nat, v: View, items: seq<WorkItem>, base: Base, from: nat, v': View,
                   words: nat, extra: nat, b: Base)
    requires v.items == items + [Chunk(base, from)] && from <= |Fields(g, base)|
    requires Scans(g, segmentWords, v.(items := items), v', {}, words, extra)
    requires ClosedRange(g, v'.b, Work(v'), base, from, |Fields(g, base)|)
    requires Closed(g, v.b, Work(v), b)
    ensures Closed(g, v'.b, Work(v'), b)
  {
    var v1 := v.(items := items);
    WithoutTop(g, v, items, Chunk(base, from));
    forall i | 0 <= i < |Fields(g, b)| ensures SlotDone(g, v'.b, Work(v'), b, i) {
      if b == base && from <= i {
        assert SlotDone(g, v'.b, Work(v'), base, i);
      } else {
        assert SlotDone(g, v.b, Work(v), b, i);
        if Covered(Work(v), b, i) {
          var k: nat :| k <= i && Chunk(b, k) in Work(v);
          assert Chunk(b, k) in Work(v1);
          assert Chunk(b, k) in Work(v');
        }
      }
    }
  }

  /** A protector is popped. */
  lemma ProtectorDone(g: Graph, segmentWords: nat, v: View, items: seq<WorkItem>, base: Base,
                      excl: set<Obj>, scanned: set<Base>, u0: set<Obj>)
    requires v.items == items + [Protector(base)]
    ensures Marks(g, segmentWords, v, v.(items := items), excl, scanned, u0)
    ensures Lighter(g, v, v.(items := items))
  {
    var v1 := v.(items := items);
    WithoutTop(g, v, items, Protector(base));
    assert Step(g, v.b, Work(v), v1.b, Work(v1), {});
    if Inv(g, v, excl, scanned) && !v.overflow {
      TriKept(g, v.b, Work(v), v1.b, Work(v1), {}, excl, scanned);
      assert excl + {} == excl;
    }
  }

  ghost predicate ScansRoot(root: Root, stackRoots: bool) {
    root.exact || root.isStackMemory == stackRoots
  }

  /** The roots with an index below n that MarkRoots scans. */
  ghost function RootsBelow(g: Graph, n: nat, stackRoots: bool): set<Base> {
    set r: nat | r < n && r < |g.roots| && ScansRoot(g.roots[r], stackRoots) :: RootBase(r)
  }

  lemma AllRootsScanned(g: Graph, scanStack: bool)
    ensures RootBases(g, scanStack) ==
            RootsBelow(g, |g.roots|, false) + RootsBelow(g, |g.roots|, true) + if scanStack then {StackBase} else {}
  {
  }

  /** The words of stack space that splitting a root takes: its protector and its tail. */
  function RootWords(root: Root, threshold: nat, stackRoots: bool): nat {
    if !root.exact && root.isStackMemory == stackRoots && |root.fields| > threshold then 6 else 0
  }

  /** The same, for the first n roots together. */
  function RootsWords(roots: seq<Root>, threshold: nat, n: nat, stackRoots: bool): nat
    requires n <= |roots|
  {
    if n == 0 then 0
    else RootsWords(roots, threshold, n - 1, stackRoots) + RootWords(roots[n - 1], threshold, stackRoots)
  }

  /** The words that the tails of split stack-memory roots, and the native stack, take on the mark stack before marking
      begins. */
  function StackWords(roots: seq<Root>, threshold: nat, scanStack: bool): nat {
    RootsWords(roots, threshold, |roots|, true) + if scanStack then 4 else 0
  }

  /** What counts is the shape of the roots, not their contents. */
  lemma {:induction false} SameShapeSameWords(roots: seq<Root>, roots': seq<Root>, threshold: nat, n: nat,
                                              stackRoots: bool)
    requires |roots'| == |roots| && n <= |roots|
    requires forall r :: 0 <= r < |roots| ==> SameRootShape(roots[r], roots'[r])
    ensures RootsWords(roots', threshold, n, stackRoots) == RootsWords(roots, threshold, n, stackRoots)
  {
    if n > 0 {
      SameShapeSameWords(roots, roots', threshold, n - 1, stackRoots);
      assert SameRootShape(roots[n - 1], roots'[n - 1]);
    }
  }

  predicate SameRootShape(x: Root, y: Root) {
    |y.fields| == |x.fields| && y.exact == x.exact && y.isStackMemory == x.isStackMemory
  }

  // ----- Roots, the barrier stack, and passes of overflow recovery

  /** Scanning a range that is not an object. */
  lemma ScansKeepInv(g: Graph, segmentWords: nat, v: View, v': View, words: nat, extra: nat,
                     excl: set<Obj>, scanned: set<Base>, u0: set<Obj>)
    requires Scans(g, segmentWords, v, v', {}, words, extra)
    ensures Inv(g, v, excl, scanned) ==> Inv(g, v', excl, scanned)
    ensures Pass(segmentWords, v, u0) &&
            (Unmarked(v.b) < u0 || NonObjectWords(v.items) + words + 1 <= segmentWords) ==>
              Pass(segmentWords, v', u0)
  {
    ScansKeepMarks(g, segmentWords, v, v', {}, words, extra);
    if HasObject(v.items) {
      var o :| GCObject(o) in v.items;
      assert GCObject(o) in v'.items;
    }
    if Inv(g, v, excl, scanned) && !v'.overflow {
      TriKept(g, v.b, Work(v), v'.b, Work(v'), {}, excl, scanned);
      assert excl + {} == excl;
    }
  }

  /** A marked object has been traced again, so that it need not be excepted any more. */
  lemma ObjectRescanned(g: Graph, segmentWords: nat, v: View, v': View, words: nat, extra: nat, o: Obj,
                        excl: set<Obj>, scanned: set<Base>, u0: set<Obj>)
    requires Scans(g, segmentWords, v, v', {o}, words, extra)
    requires v'.overflow || Closed(g, v'.b, Work(v'), ObjectBase(o))
    ensures Inv(g, v, excl, scanned) ==> Inv(g, v', excl - {o}, scanned)
    ensures Pass(segmentWords, v, u0) && NonObjectWords(v.items) + words + 1 <= segmentWords ==>
              Pass(segmentWords, v', u0)
  {
    ScansKeepMarks(g, segmentWords, v, v', {o}, words, extra);
    if HasObject(v.items) {
      var x :| GCObject(x) in v.items;
      assert GCObject(x) in v'.items;
    }
    if Inv(g, v, excl, scanned) && !v'.overflow {
      TriKept(g, v.b, Work(v), v'.b, Work(v'), {o}, excl, scanned);
    }
  }

  /** An object that is not black, or has no fields, need not be traced. */
  lemma ObjectSkipped(g: Graph, v: View, o: Obj, excl: set<Obj>, scanned: set<Base>)
    requires !Black(v.b, o) || Fields(g, ObjectBase(o)) == []
    ensures Inv(g, v, excl, scanned) ==> Inv(g, v, excl - {o}, scanned)
  {
  }

  lemma OneMoreScanned(g: Graph, v: View, base: Base, excl: set<Obj>, scanned: set<Base>)
    requires v.overflow || Closed(g, v.b, Work(v), base)
    ensures Inv(g, v, excl, scanned) ==> Inv(g, v, excl, scanned + {base})
  {
  }

  lemma NothingScanned(g: Graph, v: View, excl: set<Obj>)
    requires v.b.Keys <= excl
    ensures Inv(g, v, excl, {})
  {
  }

  /** Work has moved from the barrier stack to the mark stack. */
  lemma WorkMoved(g: Graph, segmentWords: nat, v: View, v': View, moved: seq<WorkItem>,
                  excl: set<Obj>, scanned: set<Base>, u0: set<Obj>)
    requires v'.b == v.b && Work(v') == Work(v)
    requires v'.items == moved + v.items && forall item :: item in moved ==> item.GCObject?
    requires v.overflow ==> v'.overflow
    requires v'.overflow && !v.overflow ==> moved != []
    ensures Inv(g, v, excl, scanned) ==> Inv(g, v', excl, scanned)
    ensures Pass(segmentWords, v, u0) ==> Pass(segmentWords, v', u0)
    ensures NonObjectWords(v'.items) == NonObjectWords(v.items)
  {
    NonObjectWordsConcat(moved, v.items);
    ObjectsOnly(moved);
    if HasObject(v.items) {
      var x :| GCObject(x) in v.items;
      assert GCObject(x) in v'.items;
    }
    if moved != [] {
      assert moved[0] in v'.items && moved[0] == GCObject(moved[0].obj);
    }
  }

  lemma {:induction false} ObjectsOnly(items: seq<WorkItem>)
    requires forall item :: item in items ==> item.GCObject?
    ensures NonObjectWords(items) == 0
  {
    if items != [] {
      assert items[|items| - 1] in items;
      ObjectsOnly(items[..|items| - 1]);
    }
  }

  // ----- The mutator

  /** A store of a pointer keeps the invariant if its container is not black any more, or an overflow
      is on record; a store of NULL always does. */
  lemma StoreKeepsInv(g: Graph, v: View, c: Obj, i: nat, value: Word)
    requires c in g.heap && i < |g.heap[c].fields| && 0 !in v.b && Inv(g, v, {}, {})
    requires !Black(v.b, c) || v.overflow || value == 0
    ensures Inv(g.(heap := StoreIn(g.heap, c, i, value)), v, {}, {})
  {
    var g' := g.(heap := StoreIn(g.heap, c, i, value));
    if !v.overflow {
      forall o | Black(v.b, o) ensures Closed(g', v.b, Work(v), ObjectBase(o)) {
        assert Closed(g, v.b, Work(v), ObjectBase(o));
        forall k | 0 <= k < |Fields(g', ObjectBase(o))| ensures SlotDone(g', v.b, Work(v), ObjectBase(o), k) {
          assert SlotDone(g, v.b, Work(v), ObjectBase(o), k);
        }
      }
    }
  }

  function StoreIn(heap: map<Obj, Object>, c: Obj, i: nat, value: Word): map<Obj, Object>
    requires c in heap && i < |heap[c].fields|
  {
    heap[c := heap[c].(fields := heap[c].fields[i := value])]
  }

  /** The barrier takes an object's mark away and queues it. */
  lemma GreyedKeepsInv(g: Graph, v: View, c: Obj, v': View)
    requires c in v.b && Inv(g, v, {}, {})
    requires v'.b == v.b[c := GCBits(false, true)] && Work(v') == Work(v) + multiset{GCObject(c)}
    requires v'.overflow == v.overflow
    ensures Inv(g, v', {}, {})
  {
    if !v.overflow {
      TriKept(g, v.b, Work(v), v'.b, Work(v'), {}, {}, {});
      var none: set<Obj> := {};
      assert none + none == none;
    }
  }

  /** Objects that are new to the heap are white and nothing points to them yet. */
  lemma NewObjectKeepsInv(g: Graph, v: View, o: Obj, record: Object)
    requires WellFormed(g, v.b) && Inv(g, v, {}, {}) && o !in g.heap && IsAddress(o)
    ensures Inv(g.(heap := g.heap[o := record]), v.(b := v.b[o := GCBits(false, false)]), {}, {})
  {
    var g', b' := g.(heap := g.heap[o := record]), v.b[o := GCBits(false, false)];
    if !v.overflow {
      forall x | Black(b', x) ensures Closed(g', b', Work(v), ObjectBase(x)) {
        assert Black(v.b, x) && Closed(g, v.b, Work(v), ObjectBase(x));
        assert Fields(g', ObjectBase(x)) == Fields(g, ObjectBase(x));
        forall i | 0 <= i < |Fields(g', ObjectBase(x))| ensures SlotDone(g', b', Work(v), ObjectBase(x), i) {
          assert SlotDone(g, v.b, Work(v), ObjectBase(x), i);
        }
      }
    }
  }

  lemma NewObjectWellFormed(g: Graph, b: Colouring, items: seq<WorkItem>, work: multiset<WorkItem>, o: Obj,
                            record: Object)
    requires WellFormed(g, b) && QueueExact(b, work, {}) && ItemsInGraph(g, items) && o !in g.heap && IsAddress(o)
    requires forall i :: 0 <= i < |record.fields| ==> record.fields[i] == 0
    requires !record.containsPointers ==> record.fields == []
    ensures WellFormed(g.(heap := g.heap[o := record]), b[o := GCBits(false, false)])
    ensures QueueExact(b[o := GCBits(false, false)], work, {})
    ensures ItemsInGraph(g.(heap := g.heap[o := record]), items)
  {
  }

  lemma StoreWellFormed(g: Graph, b: Colouring, items: seq<WorkItem>, c: Obj, i: nat, value: Word)
    requires WellFormed(g, b) && ItemsInGraph(g, items) && CanDo(g, Store(c, i, value, true))
    ensures WellFormed(g.(heap := StoreIn(g.heap, c, i, value)), b)
    ensures ItemsInGraph(g.(heap := StoreIn(g.heap, c, i, value)), items)
    ensures StoreIn(g.heap, c, i, value).Keys == g.heap.Keys && 0 !in b
  {
  }

  lemma StoreSpares(g: Graph, b: Colouring, items: seq<WorkItem>, c: Obj, i: nat, value: Word, garbage: set<Obj>)
    requires c in g.heap && i < |g.heap[c].fields| && Spared(g, b, items, garbage)
    requires value !in garbage
    ensures Spared(g.(heap := StoreIn(g.heap, c, i, value)), b, items, garbage)
  {
    var g' := g.(heap := StoreIn(g.heap, c, i, value));
    forall base: Base, k: nat | Outside(base, garbage) && k < |Fields(g', base)|
      ensures Fields(g', base)[k] !in garbage
    {
      assert Fields(g', base)[k] == Fields(g, base)[k] || Fields(g', base)[k] == value;
    }
  }

  lemma NewObjectSpares(g: Graph, b: Colouring, items: seq<WorkItem>, o: Obj, record: Object, garbage: set<Obj>)
    requires WellFormed(g, b) && Spared(g, b, items, garbage) && o !in g.heap
    requires forall i :: 0 <= i < |record.fields| ==> record.fields[i] == 0
    ensures Spared(g.(heap := g.heap[o := record]), b[o := GCBits(false, false)], items, garbage)
  {
    var g' := g.(heap := g.heap[o := record]);
    forall base: Base, k: nat | Outside(base, garbage) && k < |Fields(g', base)|
      ensures Fields(g', base)[k] !in garbage
    {
      if base != ObjectBase(o) {
        assert Fields(g', base) == Fields(g, base);
      }
    }
  }

  lemma RootsSpare(g: Graph, b: Colouring, items: seq<WorkItem>, g': Graph, garbage: set<Obj>)
    requires Spared(g, b, items, garbage) && g'.heap == g.heap
    requires forall base: Base, k: nat :: !base.ObjectBase? && k < |Fields(g', base)| ==>
              Fields(g', base)[k] !in garbage
    ensures Spared(g', b, items, garbage)
  {
    forall base: Base, k: nat | Outside(base, garbage) && k < |Fields(g', base)|
      ensures Fields(g', base)[k] !in garbage
    {
      if base.ObjectBase? {
        assert Fields(g', base) == Fields(g, base);
      }
    }
  }

  /** Roots and the stack are not covered by the barrier, and need not be: they are scanned last. */
  lemma OtherRootsKeepInv(g: Graph, v: View, roots: seq<Root>, stack: seq<Word>)
    requires Inv(g, v, {}, {})
    ensures Inv(Graph(g.heap, roots, stack), v, {}, {})
  {
    var g' := Graph(g.heap, roots, stack);
    if !v.overflow {
      forall o | Black(v.b, o) ensures Closed(g', v.b, Work(v), ObjectBase(o)) {
        assert Closed(g, v.b, Work(v), ObjectBase(o));
        forall i | 0 <= i < |Fields(g', ObjectBase(o))| ensures SlotDone(g', v.b, Work(v), ObjectBase(o), i) {
          assert SlotDone(g, v.b, Work(v), ObjectBase(o), i);
        }
      }
    }
  }

  // ----- Soundness

  ghost predicate RootWord(g: Graph, scanStack: bool, w: Word) {
    || (exists r :: 0 <= r < |g.roots| && w in g.roots[r].fields)
    || (scanStack && w in g.stack)
  }

  /** A path of objects, each reachable from the one before it through a field. */
  ghost predicate IsPath(g: Graph, path: seq<Obj>) {
    && (forall k :: 0 <= k < |path| ==> path[k] in g.heap)
    && (forall k :: 0 < k < |path| ==> path[k] in g.heap[path[k - 1]].fields)
  }

  ghost predicate Reachable(g: Graph, scanStack: bool, o: Obj) {
    exists path: seq<Obj> ::
      path != [] && IsPath(g, path) && RootWord(g, scanStack, path[0]) && path[|path| - 1] == o
  }

  ghost function RootBases(g: Graph, scanStack: bool): set<Base> {
    (set r | 0 <= r < |g.roots| :: RootBase(r)) + if scanStack then {StackBase} else {}
  }

  /** With all roots scanned and no work left, everything reachable is black. */
  lemma MarkingSound(g: Graph, b: Colouring, scanStack: bool, o: Obj)
    requires WellFormed(g, b)
    requires QueueExact(b, multiset{}, {})
    requires Tri(g, b, multiset{}, {}, RootBases(g, scanStack))
    requires Reachable(g, scanStack, o)
    ensures Black(b, o)
  {
    var path :| path != [] && IsPath(g, path) && RootWord(g, scanStack, path[0]) && path[|path| - 1] == o;
    PathBlack(g, b, scanStack, path);
  }

  lemma {:induction false} PathBlack(g: Graph, b: Colouring, scanStack: bool, path: seq<Obj>)
    requires WellFormed(g, b)
    requires QueueExact(b, multiset{}, {})
    requires Tri(g, b, multiset{}, {}, RootBases(g, scanStack))
    requires path != [] && IsPath(g, path) && RootWord(g, scanStack, path[0])
    ensures Black(b, path[|path| - 1])
  {
    var last := path[|path| - 1];
    assert multiset{}[GCObject(last)] == 0;
    var base;
    if |path| == 1 {
      if r :| 0 <= r < |g.roots| && last in g.roots[r].fields {
        base := RootBase(r);
      } else {
        base := StackBase;
      }
      assert base in RootBases(g, scanStack);
    } else {
      PathBlack(g, b, scanStack, path[..|path| - 1]);
      base := ObjectBase(path[|path| - 2]);
    }
    var i :| 0 <= i < |Fields(g, base)| && Fields(g, base)[i] == last;
    assert SlotDone(g, b, multiset{}, base, i);
  }

  // ----- What the mutator's program does to the graph, whatever the collector does meanwhile

  datatype MutatorStep =
    | Store(container: Obj, index: nat, value: Word, nullChecked: bool)
    | Allocate(obj: Obj, words: nat, containsPointers: bool, exact: bool)
    | StoreRoot(root: nat, index: nat, value: Word)
    | Increment(slices: nat)

  /** Stores go into existing objects and store pointers to existing objects, or data; allocation returns unused
      addresses; an increment of the collector is nothing to the program. */
  predicate CanDo(g: Graph, step: MutatorStep) {
    match step
    case Store(c, i, w, _) => c in g.heap && i < |g.heap[c].fields| && (IsAddress(w) ==> w in g.heap)
    case Allocate(o, _, _, _) => IsAddress(o) && o !in g.heap
    case StoreRoot(r, i, _) => r < |g.roots| && i < |g.roots[r].fields|
    case Increment(_) => true
  }

  /** The step stores no pointer to an object of the set. */
  predicate Avoids(step: MutatorStep, garbage: set<Obj>) {
    match step
    case Store(_, _, w, _) => w !in garbage
    case StoreRoot(_, _, w) => w !in garbage
    case _ => true
  }

  function NewObject(words: nat, containsPointers: bool, exact: bool): Object {
    Object(if containsPointers then seq(words, _ => 0) else [], containsPointers, exact)
  }

  lemma NewObjectNull(words: nat, containsPointers: bool, exact: bool)
    ensures var r := NewObject(words, containsPointers, exact);
            && (forall i :: 0 <= i < |r.fields| ==> r.fields[i] == 0)
            && (!r.containsPointers ==> r.fields == [])
            && |r.fields| == (if containsPointers then words else 0)
            && r.containsPointers == containsPointers && r.exact == exact
  {
  }

  function Do(g: Graph, step: MutatorStep): Graph
    requires CanDo(g, step)
  {
    match step
    case Store(c, i, w, _) => g.(heap := StoreIn(g.heap, c, i, w))
    case Allocate(o, words, ptrs, exact) => g.(heap := g.heap[o := NewObject(words, ptrs, exact)])
    case StoreRoot(r, i, w) => g.(roots := g.roots[r := g.roots[r].(fields := g.roots[r].fields[i := w])])
    case Increment(_) => g
  }

  /** The graph after a script; steps that the program cannot do are left out. */
  function DoAll(g: Graph, script: seq<MutatorStep>): Graph {
    if script == [] then g
    else
      var before := DoAll(g, script[..|script| - 1]);
      var step := script[|script| - 1];
      if CanDo(before, step) then Do(before, step) else before
  }

  /** One word of one object is another, and nothing else. */
  ghost predicate OnlyWord(heap: map<Obj, Object>, heap': map<Obj, Object>, c: Obj, i: nat, value: Word) {
    && heap'.Keys == heap.Keys && c in heap && |heap'[c].fields| == |heap[c].fields|
    && i < |heap[c].fields| && heap'[c].fields[i] == value
    && (forall j :: 0 <= j < |heap[c].fields| && j != i ==> heap'[c].fields[j] == heap[c].fields[j])
    && heap'[c].containsPointers == heap[c].containsPointers && heap'[c].exact == heap[c].exact
    && forall o :: o in heap && o != c ==> heap'[o] == heap[o]
  }

  /** There is an object more, with as many words as wanted, all of them null, or none if it is to have no pointers. */
  ghost predicate OnlyNew(heap: map<Obj, Object>, heap': map<Obj, Object>, o: Obj, words: nat, ptrs: bool,
                          exact: bool)
  {
    && heap'.Keys == heap.Keys + {o} && o !in heap
    && |heap'[o].fields| == (if ptrs then words else 0)
    && (forall i :: 0 <= i < |heap'[o].fields| ==> heap'[o].fields[i] == 0)
    && heap'[o].containsPointers == ptrs && heap'[o].exact == exact
    && forall x :: x in heap ==> heap'[x] == heap[x]
  }

  /** One word of one root is another, and nothing else. */
  ghost predicate OnlyRootWord(roots: seq<Root>, roots': seq<Root>, r: nat, i: nat, value: Word) {
    && |roots'| == |roots| && r < |roots| && |roots'[r].fields| == |roots[r].fields|
    && i < |roots[r].fields| && roots'[r].fields[i] == value
    && (forall j :: 0 <= j < |roots[r].fields| && j != i ==> roots'[r].fields[j] == roots[r].fields[j])
    && roots'[r].exact == roots[r].exact && roots'[r].isStackMemory == roots[r].isStackMemory
    && forall q :: 0 <= q < |roots| && q != r ==> roots'[q] == roots[q]
  }

  /** What each step of a program does, and when it does nothing. */
  ghost predicate StepDone(before: Graph, after: Graph, step: MutatorStep) {
    match step
    case Store(c, i, w, _) =>
      if c in before.heap && i < |before.heap[c].fields| && (IsAddress(w) ==> w in before.heap)
      then OnlyWord(before.heap, after.heap, c, i, w) && after.roots == before.roots && after.stack == before.stack
      else after == before
    case Allocate(o, words, ptrs, exact) =>
      if IsAddress(o) && o !in before.heap
      then
        && OnlyNew(before.heap, after.heap, o, words, ptrs, exact)
        && after.roots == before.roots && after.stack == before.stack
      else after == before
    case StoreRoot(r, i, w) =>
      if r < |before.roots| && i < |before.roots[r].fields|
      then
        && OnlyRootWord(before.roots, after.roots, r, i, w)
        && after.heap == before.heap && after.stack == before.stack
      else after == before
    case Increment(_) => after == before
  }

  lemma AfterStep(g: Graph, script: seq<MutatorStep>, step: MutatorStep)
    ensures StepDone(DoAll(g, script), DoAll(g, script + [step]), step)
  {
    assert (script + [step])[..|script|] == script;
  }

  /** A word is what was stored there last, or what it was at first. */
  lemma {:induction false} WordKept(g: Graph, script: seq<MutatorStep>, c: Obj, i: nat)
    requires c in g.heap && i < |g.heap[c].fields|
    requires forall k :: 0 <= k < |script| && script[k].Store? ==> script[k].container != c || script[k].index != i
    ensures var g' := DoAll(g, script);
      c in g'.heap && |g'.heap[c].fields| == |g.heap[c].fields| && g'.heap[c].fields[i] == g.heap[c].fields[i]
  {
    hide DoAll;
    if script == [] {
      NothingDone(g);
    } else {
      var before, step := script[..|script| - 1], script[|script| - 1];
      WordKept(g, before, c, i);
      AfterStep(g, before, step);
      assert script == before + [step];
    }
  }

  lemma NothingDone(g: Graph)
    ensures DoAll(g, []) == g
  {
  }

  lemma {:induction false} DoneInTurn(g: Graph, first: seq<MutatorStep>, later: seq<MutatorStep>)
    ensures DoAll(g, first + later) == DoAll(DoAll(g, first), later)
  {
    if later == [] {
      assert first + later == first;
    } else {
      var all, before := first + later, later[..|later| - 1];
      assert all[..|all| - 1] == first + before && all[|all| - 1] == later[|later| - 1];
      DoneInTurn(g, first, before);
    }
  }

  /** So a program reads what it stored last, whatever it stored elsewhere since. */
  lemma ReadsLastStored(g: Graph, before: seq<MutatorStep>, since: seq<MutatorStep>, c: Obj, i: nat, w: Word, nc: bool)
    requires var g' := DoAll(g, before);
      c in g'.heap && i < |g'.heap[c].fields| && (IsAddress(w) ==> w in g'.heap)
    requires forall k :: 0 <= k < |since| && since[k].Store? ==> since[k].container != c || since[k].index != i
    ensures var g' := DoAll(g, before + [Store(c, i, w, nc)] + since);
      c in g'.heap && i < |g'.heap[c].fields| && g'.heap[c].fields[i] == w
  {
    hide DoAll;
    AfterStep(g, before, Store(c, i, w, nc));
    DoneInTurn(g, before + [Store(c, i, w, nc)], since);
    WordKept(DoAll(g, before + [Store(c, i, w, nc)]), since, c, i);
  }

  /** The program changes the contents of roots, but neither their number nor their shape. */
  lemma {:induction false} ShapesKept(g: Graph, script: seq<MutatorStep>)
    ensures |DoAll(g, script).roots| == |g.roots|
    ensures forall r :: 0 <= r < |g.roots| ==> SameRootShape(g.roots[r], DoAll(g, script).roots[r])
  {
    if script != [] { ShapesKept(g, script[..|script| - 1]); }
  }

  /** So what their tails take on the mark stack is the same at the end of a collection as at its start. */
  lemma StackWordsKept(g: Graph, script: seq<MutatorStep>, threshold: nat, scanStack: bool)
    ensures StackWords(DoAll(g, script).roots, threshold, scanStack) == StackWords(g.roots, threshold, scanStack)
  {
    hide DoAll;
    ShapesKept(g, script);
    SameShapeSameWords(g.roots, DoAll(g, script).roots, threshold, |g.roots|, true);
  }

  // ----- Sweeping

  function Swept(heap: map<Obj, Object>, b: Colouring): map<Obj, Object> {
    map o | o in heap && o in b && b[o].mark :: heap[o]
  }

  function Unmark(heap: map<Obj, Object>): Colouring {
    map o | o in heap :: GCBits(false, false)
  }

  /** Freeing what is not marked leaves no dangling pointer in the objects that remain. */
  lemma SweepWellFormed(g: Graph, b: Colouring, scanned: set<Base>)
    requires WellFormed(g, b) && QueueExact(b, multiset{}, {}) && Tri(g, b, multiset{}, {}, scanned)
    ensures WellFormed(Graph(Swept(g.heap, b), g.roots, []), Unmark(Swept(g.heap, b)))
  {
    var heap' := Swept(g.heap, b);
    forall o, i | o in heap' && 0 <= i < |heap'[o].fields|
      ensures IsAddress(heap'[o].fields[i]) ==> heap'[o].fields[i] in heap'
    {
      var p := heap'[o].fields[i];
      assert Black(b, o) && SlotDone(g, b, multiset{}, ObjectBase(o), i);
      assert p == g.heap[o].fields[i];
      assert multiset{}[GCObject(p)] == 0;
    }
  }

  lemma {:induction false} SubsetSize(a: set<Obj>, b: set<Obj>)
    requires a <= b
    ensures |a| <= |b| && (a < b ==> |a| < |b|)
  {
    if a != {} {
      var x :| x in a;
      SubsetSize(a - {x}, b - {x});
    }
  }
}
