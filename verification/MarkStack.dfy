/** The mark stack of MMgc/GCStack.cpp: a stack of work items kept in fixed-size
    segments, whose push is refused when the top segment is full and no further
    segment can be obtained. */
module MarkStack {

  /** What a partially scanned range belongs to: a large object, a GCRoot, or the native stack. */
  datatype Base = ObjectBase(obj: nat) | RootBase(index: nat) | StackBase

  /** The typed items of the stack.  A Chunk stands for kLargeObjectChunk, kLargeRootChunk or
      kStackMemory, according to its base; 'from' is the first word that is still unscanned. */
  datatype WorkItem =
    | GCObject(obj: nat)
    | Chunk(base: Base, from: nat)
    | Protector(base: Base)

  /** The number of machine words an item takes on the stack. */
  function Words(item: WorkItem): nat {
    match item
    case GCObject(_) => 1
    case Chunk(_, _) => 4
    case Protector(_) => 2
  }

  function TotalWords(items: seq<WorkItem>): nat {
    if items == [] then 0 else TotalWords(items[..|items| - 1]) + Words(items[|items| - 1])
  }

  /** The words taken by chunks and protectors only. */
  function NonObjectWords(items: seq<WorkItem>): nat {
    if items == [] then 0
    else NonObjectWords(items[..|items| - 1]) +
         var last := items[|items| - 1]; if last.GCObject? then 0 else Words(last)
  }

  ghost predicate HasObject(items: seq<WorkItem>) {
    exists o :: GCObject(o) in items
  }

  function Flatten(segments: seq<seq<WorkItem>>): seq<WorkItem> {
    if segments == [] then [] else Flatten(segments[..|segments| - 1]) + segments[|segments| - 1]
  }

  lemma {:induction false} FlattenConcat(a: seq<seq<WorkItem>>, b: seq<seq<WorkItem>>)
    ensures Flatten(a + b) == Flatten(a) + Flatten(b)
  {
    if b == [] {
      assert a + b == a;
    } else {
      FlattenConcat(a, b[..|b| - 1]);
      assert (a + b)[..|a + b| - 1] == a + b[..|b| - 1];
    }
  }

  lemma {:induction false} TotalWordsConcat(a: seq<WorkItem>, b: seq<WorkItem>)
    ensures TotalWords(a + b) == TotalWords(a) + TotalWords(b)
  {
    if b == [] {
      assert a + b == a;
    } else {
      TotalWordsConcat(a, b[..|b| - 1]);
      assert (a + b)[..|a + b| - 1] == a + b[..|b| - 1];
    }
  }

  lemma {:induction false} NonObjectWordsConcat(a: seq<WorkItem>, b: seq<WorkItem>)
    ensures NonObjectWords(a + b) == NonObjectWords(a) + NonObjectWords(b)
  {
    if b == [] {
      assert a + b == a;
    } else {
      NonObjectWordsConcat(a, b[..|b| - 1]);
      assert (a + b)[..|a + b| - 1] == a + b[..|b| - 1];
    }
  }

  lemma NonObjectWordsPush(items: seq<WorkItem>, item: WorkItem)
    ensures NonObjectWords(items + [item]) == NonObjectWords(items) + if item.GCObject? then 0 else Words(item)
  {
    assert (items + [item])[..|items|] == items;
  }

  /** A stack without object items consists of chunks and protectors alone. */
  lemma {:induction false} NonObjectWordsIsTotal(items: seq<WorkItem>)
    ensures NonObjectWords(items) <= TotalWords(items)
    ensures !HasObject(items) ==> NonObjectWords(items) == TotalWords(items)
  {
    if items != [] {
      var front, last := items[..|items| - 1], items[|items| - 1];
      NonObjectWordsIsTotal(front);
      assert last in items;
      if !HasObject(items) {
        forall o ensures GCObject(o) !in front && last != GCObject(o) {
          assert GCObject(o) !in items;
        }
      }
    }
  }

  class GCMarkStack {
    /** kMarkStackItems: the payload of one segment, in words. */
    const segmentWords: nat
    /** The most segments this stack may own; memory may run out earlier. */
    const allowance: nat
    /** The segments, oldest first; the last one is m_topSegment. */
    var segments: seq<seq<WorkItem>>

    ghost predicate Valid()
      reads this
    {
      && 7 <= segmentWords
      && 1 <= |segments| <= allowance
      && (forall k :: 0 <= k < |segments| ==> TotalWords(segments[k]) <= segmentWords)
      && (1 < |segments| ==> forall k :: 0 <= k < |segments| ==> segments[k] != [])
    }

    ghost function Contents(): seq<WorkItem>
      reads this
    {
      Flatten(segments)
    }

    constructor (segmentWords: nat, allowance: nat)
      requires 7 <= segmentWords && 1 <= allowance
      ensures Valid() && Contents() == []
      ensures this.segmentWords == segmentWords && this.allowance == allowance
    {
      this.segmentWords := segmentWords;
      this.allowance := allowance;
      segments := [[]];
      new;
      assert Flatten([[]]) == Flatten([][..0]) + [];
    }

    function IsEmpty(): (r: bool)
      requires Valid()
      reads this
      ensures r == (Contents() == [])
    {
      assert Contents() == Flatten(segments[..|segments| - 1]) + segments[|segments| - 1];
      assert |segments| == 1 ==> segments[..|segments| - 1] == [];
      segments[|segments| - 1] == []
    }

    /** The words in use: those of the top segment, and m_hiddenCount. */
    function Count(): nat
      requires Valid()
      reads this
    {
      TotalWords(Flatten(segments))
    }

    /** m_hiddenSegments */
    function InactiveSegments(): nat
      requires Valid()
      reads this
    {
      |segments| - 1
    }

    lemma NothingInactive()
      requires Valid() && Contents() == []
      ensures InactiveSegments() == 0
    {
      assert IsEmpty();
    }

    /** One of the Push_* methods: allocSpace, then store. */
    method Push(item: WorkItem) returns (ok: bool)
      requires Valid()
      modifies this
      ensures Valid()
      ensures ok ==> Contents() == old(Contents()) + [item]
      ensures !ok ==> Contents() == old(Contents())
      // a refusal means that a whole segment is in use
      ensures !ok ==> TotalWords(Contents()) + Words(item) > segmentWords
      // with a single segment nothing beyond that segment is ever stored
      ensures allowance == 1 ==> TotalWords(Contents()) <= segmentWords
    {
      var top := segments[|segments| - 1];
      if TotalWords(top) + Words(item) > segmentWords {
        TopWords(segments);
        ok := PushSegment();
        if !ok {
          SingleSegment();
          return;
        }
      }
      StoreOnTop(item);
      SingleSegment();
      ok := true;
    }

    /** Store an item for which the top segment has room. */
    method StoreOnTop(item: WorkItem)
      requires 7 <= segmentWords && 1 <= |segments| <= allowance
      requires forall k :: 0 <= k < |segments| ==> TotalWords(segments[k]) <= segmentWords
      requires forall k :: 0 <= k < |segments| - 1 ==> segments[k] != []
      requires TotalWords(segments[|segments| - 1]) + Words(item) <= segmentWords
      modifies this
      ensures Valid() && Contents() == old(Contents()) + [item]
    {
      var under, top := segments[..|segments| - 1], segments[|segments| - 1];
      assert (top + [item])[..|top|] == top;
      hide Flatten;
      assert Contents() == Flatten(under) + top by { FlattenLast(segments); }
      segments := under + [top + [item]];
      assert segments[..|under|] == under;
      FlattenLast(segments);
    }

    static lemma FlattenLast(segments: seq<seq<WorkItem>>)
      requires segments != []
      ensures Flatten(segments) == Flatten(segments[..|segments| - 1]) + segments[|segments| - 1]
    {
    }

    static lemma TopWords(segments: seq<seq<WorkItem>>)
      requires segments != []
      ensures TotalWords(segments[|segments| - 1]) <= TotalWords(Flatten(segments))
    {
      TotalWordsConcat(Flatten(segments[..|segments| - 1]), segments[|segments| - 1]);
    }

    lemma SingleSegment()
      requires Valid()
      ensures allowance == 1 ==> TotalWords(Contents()) <= segmentWords
    {
      if allowance == 1 {
        assert segments == [segments[0]];
        FlattenOne(segments[0]);
      }
    }

    /** Start a new top segment, if memory and the allowance permit; the old top is full, hence
        not empty. */
    method PushSegment() returns (ok: bool)
      requires Valid()
      requires segments[|segments| - 1] != []
      modifies this
      ensures ok ==> segments == old(segments) + [[]] && |segments| <= allowance
      ensures !ok ==> segments == old(segments)
      ensures Contents() == old(Contents())
    {
      var memory: bool := *;
      ok := memory && |segments| < allowance;
      if ok {
        segments := segments + [[]];
        assert segments[..|segments| - 1] == old(segments);
      }
    }

    /** One of the Pop_* methods: read the top item, then freeSpace. */
    method Pop() returns (item: WorkItem)
      requires Valid() && Contents() != []
      modifies this
      ensures Valid()
      ensures old(Contents()) == Contents() + [item]
    {
      var top := segments[|segments| - 1];
      ghost var under := segments[..|segments| - 1];
      assert Contents() == Flatten(under) + top;
      assert |segments| == 1 ==> under == [];
      item := top[|top| - 1];
      var rest := top[..|top| - 1];
      assert rest + [item] == top;
      segments := segments[|segments| - 1 := rest];
      assert segments[..|segments| - 1] == under;
      assert Contents() + [item] == old(Contents());
      if rest == [] && |segments| > 1 {
        segments := segments[..|segments| - 1];   // PopSegment_UnlessLast
        assert segments == under;
      }
    }

    method Clear()
      requires Valid()
      modifies this
      ensures Valid() && Contents() == []
    {
      segments := [[]];
      assert Flatten([[]]) == Flatten([][..0]) + [];
    }

    /** Move the segment below the other stack's top to the bottom of this stack. */
    method TransferOneInactiveSegmentFrom(other: GCMarkStack) returns (ghost moved: seq<WorkItem>)
      requires Valid() && other.Valid() && other != this
      requires other.InactiveSegments() > 0 && other.segmentWords == segmentWords
      modifies this, other
      ensures Valid() && other.Valid()
      ensures Contents() == moved + old(Contents())
      ensures multiset(other.Contents()) + multiset(moved) == old(multiset(other.Contents()))
      // nothing moves only if this stack owns as many segments as it may
      ensures moved == [] ==> old(InactiveSegments()) + 1 == allowance && unchanged(other)
      ensures moved != [] ==> other.InactiveSegments() == old(other.InactiveSegments()) - 1
    {
      if !IsEmpty() && |segments| == allowance {   // MakeSpaceForSegments failed
        moved := [];
        assert multiset(moved) == multiset{};
        return;
      }
      var subject := other.UnlinkBelowTop();
      LinkAtBottom(subject);
      moved := subject;
    }

    /** Pick off the segment below the top. */
    method UnlinkBelowTop() returns (subject: seq<WorkItem>)
      requires Valid() && InactiveSegments() > 0
      modifies this
      ensures Valid() && InactiveSegments() == old(InactiveSegments()) - 1
      ensures subject != [] && TotalWords(subject) <= segmentWords
      ensures multiset(Contents()) + multiset(subject) == old(multiset(Contents()))
    {
      var n := |segments|;
      var low, top := segments[..n - 2], segments[n - 1];
      subject := segments[n - 2];
      assert segments == low + [subject] + [top];
      UnlinkContents(low, subject, top);
      segments := low + [top];
    }

    /** Link a segment in below all others; an empty top segment is then popped. */
    method LinkAtBottom(subject: seq<WorkItem>)
      requires Valid() && (IsEmpty() || |segments| < allowance)
      requires subject != [] && TotalWords(subject) <= segmentWords
      modifies this
      ensures Valid()
      ensures Contents() == subject + old(Contents())
    {
      if IsEmpty() {
        assert Contents() == [];
        FlattenOne(subject);
        segments := [subject];
      } else {
        PushBottom(subject, segments);
        var linked := [subject] + segments;
        assert forall k :: 1 <= k < |linked| ==> linked[k] == segments[k - 1];
        segments := linked;
      }
    }

    static lemma UnlinkContents(low: seq<seq<WorkItem>>, subject: seq<WorkItem>, top: seq<WorkItem>)
      ensures multiset(Flatten(low + [subject] + [top])) == multiset(Flatten(low + [top])) + multiset(subject)
    {
      assert (low + [subject] + [top])[..|low| + 1] == low + [subject];
      assert (low + [subject])[..|low|] == low == (low + [top])[..|low|];
      assert Flatten(low + [subject] + [top]) == Flatten(low) + subject + top;
      assert Flatten(low + [top]) == Flatten(low) + top;
    }

    static lemma PushBottom(subject: seq<WorkItem>, rest: seq<seq<WorkItem>>)
      ensures Flatten([subject] + rest) == subject + Flatten(rest)
    {
      FlattenConcat([subject], rest);
      FlattenOne(subject);
    }

    static lemma FlattenOne(s: seq<WorkItem>)
      ensures Flatten([s]) == s
    {
      assert [s][..0] == [];
    }

    /** Move all segments of the other stack to the bottom of this one; may fail for lack of memory. */
    method TransferEverythingFrom(other: GCMarkStack) returns (ok: bool)
      requires Valid() && other.Valid() && other != this && other.segmentWords == segmentWords
      modifies this, other
      ensures Valid() && other.Valid()
      ensures ok ==> other.Contents() == [] && Contents() == old(other.Contents()) + old(Contents())
      ensures !ok ==> Contents() == old(Contents()) && other.Contents() == old(other.Contents())
      ensures !ok ==> other.Contents() != []
    {
      if other.IsEmpty() { return true; }
      var memory: bool := *;
      if !memory || |other.segments| + (if IsEmpty() then 0 else |segments|) > allowance { return false; }
      FlattenConcat(other.segments, segments);
      FlattenOne([]);
      hide Flatten;
      assert |other.segments| == 1 ==> other.segments[0] != [] by { FlattenOneSegment(other.segments); }
      if IsEmpty() {
        assert Contents() == [];
        segments := other.segments;
      } else {
        assert |segments| == 1 ==> segments[0] != [] by { FlattenOneSegment(segments); }
        segments := other.segments + segments;
      }
      other.segments := [[]];
      ok := true;
    }

    static lemma FlattenOneSegment(segments: seq<seq<WorkItem>>)
      ensures |segments| == 1 ==> Flatten(segments) == segments[0]
    {
      if |segments| == 1 {
        assert segments == [segments[0]];
        FlattenOne(segments[0]);
      }
    }

    /** Move one object item, if there is one to move and room for it. */
    method TransferSomethingFrom(other: GCMarkStack) returns (ok: bool)
      requires Valid() && other.Valid() && other != this
      requires forall item :: item in other.Contents() ==> item.GCObject?
      modifies this, other
      ensures Valid() && other.Valid()
      ensures ok && old(other.Contents()) != [] ==>
                exists o :: old(other.Contents()) == other.Contents() + [GCObject(o)] &&
                            Contents() == old(Contents()) + [GCObject(o)]
      ensures !ok || old(other.Contents()) == [] ==>
                Contents() == old(Contents()) && other.Contents() == old(other.Contents())
      // an empty stack always has room for one item
      ensures old(Contents()) == [] ==> ok
    {
      if other.IsEmpty() { return true; }
      var all := other.segments[|other.segments| - 1];
      var peek := all[|all| - 1];
      assert other.Contents()[|other.Contents()| - 1] == peek;
      ok := Push(GCObject(peek.obj));
      if ok {
        var popped := other.Pop();
        assert popped == peek;
      }
    }
  }
}
