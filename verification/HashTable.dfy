/** The contents of an open-addressing table as in MMgc/GCHashtable.h, as a sequence of entries:
    what makes it well probed, and what insertion, tombstones and counting do to it. */
module HashTable {
  import opened Probing

  const NULL: nat := 0
  const DELETED: nat := 1

  datatype Entry = Entry(value: nat, key: nat)

  const NO_ENTRY := Entry(0, NULL)

  /** The n-th probe for the key ends the search. */
  ghost predicate Stop(t: seq<Entry>, hash: nat -> nat, key: nat, n: nat)
    requires 0 < |t|
  {
    var k := t[Slot(hash(key), n, |t|)].key;
    k == NULL || k == key
  }

  /** The first n probes for the key do not end the search. */
  ghost predicate Passed(t: seq<Entry>, hash: nat -> nat, key: nat, n: nat)
    requires 0 < |t|
  {
    forall m: nat :: m < n ==> !Stop(t, hash, key, m)
  }

  /** The search for the key in slot i gets there with its n-th probe. */
  ghost predicate FoundAt(t: seq<Entry>, hash: nat -> nat, n: nat, i: nat)
    requires i < |t|
  {
    n < |t| && Slot(hash(t[i].key), n, |t|) == i && Passed(t, hash, t[i].key, n)
  }

  ghost predicate Reached(t: seq<Entry>, hash: nat -> nat, i: nat)
    requires i < |t|
  {
    exists n :: FoundAt(t, hash, n, i)
  }

  ghost predicate Unique(t: seq<Entry>) {
    forall i, j :: 0 <= i < j < |t| && t[i].key > DELETED ==> t[i].key != t[j].key
  }

  ghost predicate WellProbed(t: seq<Entry>, hash: nat -> nat) {
    && IsPow2(|t|) && 0 < |t|
    && Unique(t)
    && (forall i :: 0 <= i < |t| && t[i].key <= DELETED ==> t[i].value == 0)
    && (forall i :: 0 <= i < |t| && t[i].key > DELETED ==> Reached(t, hash, i))
  }

  ghost predicate HasKey(t: seq<Entry>, key: nat) {
    exists i :: 0 <= i < |t| && t[i].key == key
  }

  /** The live entries of the table are exactly those of the map. */
  ghost predicate Represents(t: seq<Entry>, m: map<nat, nat>) {
    && (forall i :: 0 <= i < |t| && t[i].key > DELETED ==> t[i].key in m && m[t[i].key] == t[i].value)
    && (forall key :: key in m ==> key > DELETED && HasKey(t, key))
  }

  /** A table stands for one map only. */
  lemma SameMap(t: seq<Entry>, m: map<nat, nat>, m': map<nat, nat>)
    requires Represents(t, m) && Represents(t, m')
    ensures m == m'
  {
    forall key ensures key in m <==> key in m' {}
    forall key | key in m ensures m[key] == m'[key] {
      var i :| 0 <= i < |t| && t[i].key == key;
    }
  }

  /** Where the search for a key ends tells whether the table has the key. */
  lemma SearchEnds(t: seq<Entry>, hash: nat -> nat, key: nat, n: nat)
    requires WellProbed(t, hash) && key != DELETED && Passed(t, hash, key, n) && Stop(t, hash, key, n)
    ensures t[Slot(hash(key), n, |t|)].key != key ==> t[Slot(hash(key), n, |t|)].key == NULL && !HasKey(t, key)
  {
    var i := Slot(hash(key), n, |t|);
    if t[i].key != key && HasKey(t, key) {
      var j :| 0 <= j < |t| && t[j].key == key;
      var m :| FoundAt(t, hash, m, j);
      assert Stop(t, hash, key, m);
    }
  }

  /** The search for an absent key ends exactly if some slot is free: in a full table it goes on for ever. */
  lemma SearchEndsIffFreeSlot(t: seq<Entry>, hash: nat -> nat, key: nat)
    requires IsPow2(|t|) && 0 < |t| && key != NULL && !HasKey(t, key)
    ensures (exists n :: Stop(t, hash, key, n)) <==> (exists i :: 0 <= i < |t| && t[i].key == NULL)
  {
    if i :| 0 <= i < |t| && t[i].key == NULL {
      var k: nat :| |t| == Pow2(k);
      var n := AllSlotsVisited(hash(key), i, k);
      assert Stop(t, hash, key, n);
    }
    if n :| Stop(t, hash, key, n) {
      assert t[Slot(hash(key), n, |t|)].key == NULL;
    }
  }

  // ----- Changing one slot

  /** A search that got somewhere still does, if one slot on the way gets another key or a tombstone. */
  lemma PathKept(t: seq<Entry>, t': seq<Entry>, hash: nat -> nat, key: nat, n: nat, i: nat)
    requires 0 < |t| == |t'| && i < |t| && key > DELETED && Passed(t, hash, key, n)
    requires t' == t[i := t'[i]] && t'[i].key != NULL
    requires t'[i].key == key ==> forall m: nat :: m < n ==> Slot(hash(key), m, |t|) != i
    ensures Passed(t', hash, key, n)
  {
    forall m: nat | m < n ensures !Stop(t', hash, key, m) {
      assert !Stop(t, hash, key, m);
    }
  }

  /** Searches for keys elsewhere still arrive, if a slot gets another key or a tombstone. */
  lemma ArrivesStill(t: seq<Entry>, hash: nat -> nat, i: nat, e: Entry, j: nat)
    requires i < |t| && j < |t| && j != i && t[j].key > DELETED && Reached(t, hash, j)
    requires e.key != NULL && e.key != t[j].key
    ensures Reached(t[i := e], hash, j)
  {
    var m :| FoundAt(t, hash, m, j);
    PathKept(t, t[i := e], hash, t[j].key, m, i);
    assert FoundAt(t[i := e], hash, m, j);
  }

  /** A slot without a key gets a key that is not in the table, and that is found there. */
  lemma SlotFilled(t: seq<Entry>, hash: nat -> nat, i: nat, e: Entry, n: nat)
    requires WellProbed(t, hash) && i < |t| && t[i].key <= DELETED
    requires e.key > DELETED && !HasKey(t, e.key)
    requires n < |t| && Slot(hash(e.key), n, |t|) == i && Passed(t, hash, e.key, n)
    requires forall m: nat :: m < n ==> Slot(hash(e.key), m, |t|) != i
    ensures WellProbed(t[i := e], hash)
  {
    hide Slot, Passed, Stop, IsPow2;
    var t' := t[i := e];
    forall j | 0 <= j < |t'| && t'[j].key > DELETED ensures Reached(t', hash, j) {
      if j == i {
        PathKept(t, t', hash, e.key, n, i);
        assert FoundAt(t', hash, n, i);
      } else {
        assert t[j].key != e.key;
        ArrivesStill(t, hash, i, e, j);
      }
    }
    forall a, b | 0 <= a < b < |t'| && t'[a].key > DELETED ensures t'[a].key != t'[b].key {
      assert a != i ==> t[a].key != e.key;
      assert b != i ==> t[b].key != e.key;
    }
  }

  /** A key is replaced by a tombstone. */
  lemma SlotDeleted(t: seq<Entry>, hash: nat -> nat, i: nat)
    requires WellProbed(t, hash) && i < |t| && t[i].key > DELETED
    ensures WellProbed(t[i := Entry(0, DELETED)], hash)
  {
    hide Reached, IsPow2;
    var t' := t[i := Entry(0, DELETED)];
    forall j | 0 <= j < |t'| && t'[j].key > DELETED ensures Reached(t', hash, j) {
      ArrivesStill(t, hash, i, Entry(0, DELETED), j);
    }
  }

  /** Values play no role in searches. */
  lemma FoundStill(t: seq<Entry>, hash: nat -> nat, i: nat, value: nat, j: nat)
    requires i < |t| && j < |t| && Reached(t, hash, j)
    ensures Reached(t[i := Entry(value, t[i].key)], hash, j)
  {
    var t' := t[i := Entry(value, t[i].key)];
    var m :| FoundAt(t, hash, m, j);
    forall k: nat | k < m ensures !Stop(t', hash, t'[j].key, k) {
      assert !Stop(t, hash, t[j].key, k);
    }
    assert FoundAt(t', hash, m, j);
  }

  /** A key gets another value. */
  lemma ValueChanged(t: seq<Entry>, hash: nat -> nat, i: nat, value: nat)
    requires WellProbed(t, hash) && i < |t| && t[i].key > DELETED
    ensures WellProbed(t[i := Entry(value, t[i].key)], hash)
  {
    hide Reached, IsPow2;
    var t' := t[i := Entry(value, t[i].key)];
    forall j | 0 <= j < |t'| && t'[j].key > DELETED ensures Reached(t', hash, j) {
      FoundStill(t, hash, i, value, j);
    }
  }

  /** What storing a key does to the map: the slot holds no key or that very key. */
  lemma StoredIn(t: seq<Entry>, m: map<nat, nat>, i: nat, e: Entry)
    requires Represents(t, m) && i < |t| && e.key > DELETED
    requires Unique(t)
    requires t[i].key == e.key || (t[i].key <= DELETED && !HasKey(t, e.key))
    ensures Represents(t[i := e], m[e.key := e.value])
  {
    var t', m' := t[i := e], m[e.key := e.value];
    forall key | key in m' ensures key > DELETED && HasKey(t', key) {
      if key == e.key {
        assert t'[i].key == key;
      } else {
        var j :| 0 <= j < |t| && t[j].key == key;
        assert t'[j].key == key;
      }
    }
    forall j | 0 <= j < |t'| && j != i && t'[j].key > DELETED ensures t[j].key != e.key {}
  }

  /** What a tombstone does to the map. */
  lemma DeletedFrom(t: seq<Entry>, m: map<nat, nat>, i: nat)
    requires Represents(t, m) && Unique(t) && i < |t| && t[i].key > DELETED
    ensures Represents(t[i := Entry(0, DELETED)], m - {t[i].key})
  {
    var t', m' := t[i := Entry(0, DELETED)], m - {t[i].key};
    forall key | key in m' ensures key > DELETED && HasKey(t', key) {
      var j :| 0 <= j < |t| && t[j].key == key;
      assert t'[j].key == key;
    }
    forall j | 0 <= j < |t'| && t'[j].key > DELETED ensures t'[j].key in m' && m'[t'[j].key] == t'[j].value {
      assert j < i ==> t[j].key != t[i].key;
      assert i < j ==> t[i].key != t[j].key;
    }
  }

  // ----- Counting

  ghost function UsedSlots(t: seq<Entry>): set<nat> {
    set i | 0 <= i < |t| && t[i].key != NULL
  }

  ghost function DeletedSlots(t: seq<Entry>): set<nat> {
    set i | 0 <= i < |t| && t[i].key == DELETED
  }

  lemma SlotCounts(t: seq<Entry>, i: nat, e: Entry)
    requires i < |t|
    ensures |UsedSlots(t[i := e])| == |UsedSlots(t)|
              - (if t[i].key != NULL then 1 else 0) + if e.key != NULL then 1 else 0
    ensures |DeletedSlots(t[i := e])| == |DeletedSlots(t)|
              - (if t[i].key == DELETED then 1 else 0) + if e.key == DELETED then 1 else 0
  {
    var t' := t[i := e];
    assert UsedSlots(t') - {i} == UsedSlots(t) - {i};
    assert DeletedSlots(t') - {i} == DeletedSlots(t) - {i};
    assert (i in UsedSlots(t) <==> t[i].key != NULL) && (i in UsedSlots(t') <==> e.key != NULL);
    assert (i in DeletedSlots(t) <==> t[i].key == DELETED) && (i in DeletedSlots(t') <==> e.key == DELETED);
    Without(UsedSlots(t), i);
    Without(UsedSlots(t'), i);
    Without(DeletedSlots(t), i);
    Without(DeletedSlots(t'), i);
  }

  lemma Without(s: set<nat>, i: nat)
    ensures |s - {i}| == |s| - if i in s then 1 else 0
  {
    if i !in s { assert s - {i} == s; }
  }

  lemma Smaller(a: set<nat>, b: set<nat>)
    requires a <= b
    ensures |a| <= |b|
  {
    assert a + (b - a) == b;
  }

  /** With fewer used slots than slots there is a free one, and every search comes there. */
  lemma FreeSlotProbed(t: seq<Entry>, h: nat) returns (n: nat)
    requires IsPow2(|t|) && |UsedSlots(t)| < |t|
    ensures n < |t| && t[Slot(h, n, |t|)].key == NULL
  {
    BelowSize(|t|);
    if Below(|t|) <= UsedSlots(t) { Smaller(Below(|t|), UsedSlots(t)); }
    var i: nat :| i in Below(|t|) && i !in UsedSlots(t);
    var k: nat :| |t| == Pow2(k);
    n := AllSlotsVisited(h, i, k);
  }

  lemma EmptyTable(t: seq<Entry>, hash: nat -> nat)
    requires IsPow2(|t|) && 0 < |t| && forall i :: 0 <= i < |t| ==> t[i] == NO_ENTRY
    ensures WellProbed(t, hash) && Represents(t, map[]) && UsedSlots(t) == {} && DeletedSlots(t) == {}
  {
  }

  /** The whole state of a table: its entries stand for the map and its counters are right. */
  ghost predicate Counted(t: seq<Entry>, hash: nat -> nat, m: map<nat, nat>, numValues: nat, numDeleted: nat) {
    && WellProbed(t, hash) && Represents(t, m)
    && numValues == |UsedSlots(t)| && numDeleted == |DeletedSlots(t)|
    && |m| == numValues - numDeleted
  }

  /** The search for the key ends with the n-th probe, in slot i. */
  ghost predicate Arrived(t: seq<Entry>, hash: nat -> nat, key: nat, n: nat, i: nat)
    requires 0 < |t|
  {
    n < |t| && i == Slot(hash(key), n, |t|) && Passed(t, hash, key, n) && Stop(t, hash, key, n)
  }

  /** The n-th probe for the key is the first one that gets to slot i, and none before it ends the search. */
  ghost predicate FirstAt(t: seq<Entry>, hash: nat -> nat, key: nat, n: nat, i: nat)
    requires 0 < |t|
  {
    && n < |t| && i == Slot(hash(key), n, |t|) && Passed(t, hash, key, n)
    && forall m: nat :: m < n ==> Slot(hash(key), m, |t|) != i
  }

  /** The first n probes for the key meet no tombstone. */
  ghost predicate NoTombstone(t: seq<Entry>, hash: nat -> nat, key: nat, n: nat)
    requires 0 < |t|
  {
    forall m: nat :: m < n ==> t[Slot(hash(key), m, |t|)].key != DELETED
  }

  /** A probe that does not end the search is passed. */
  lemma PassedOn(t: seq<Entry>, hash: nat -> nat, key: nat, n: nat)
    requires 0 < |t| && Passed(t, hash, key, n) && !Stop(t, hash, key, n)
    ensures Passed(t, hash, key, n + 1)
    ensures NoTombstone(t, hash, key, n) && t[Slot(hash(key), n, |t|)].key != DELETED ==>
              NoTombstone(t, hash, key, n + 1)
  {
  }

  /** A search for the key, which is not there, meets a tombstone before it ends. */
  ghost predicate TombstoneOnTheWay(t: seq<Entry>, hash: nat -> nat, key: nat)
    requires 0 < |t|
  {
    exists n :: Passed(t, hash, key, n) && t[Slot(hash(key), n, |t|)].key == DELETED
  }

  lemma NoneOnTheWay(t: seq<Entry>, hash: nat -> nat, key: nat, n: nat)
    requires 0 < |t| && key != DELETED && Stop(t, hash, key, n) && NoTombstone(t, hash, key, n)
    ensures !TombstoneOnTheWay(t, hash, key)
  {
    forall m: nat | Passed(t, hash, key, m) ensures t[Slot(hash(key), m, |t|)].key != DELETED {
      assert m <= n;
    }
  }

  lemma OneOnTheWay(t: seq<Entry>, hash: nat -> nat, key: nat, n: nat, i: nat)
    requires 0 < |t| && FirstAt(t, hash, key, n, i) && t[i].key == DELETED
    ensures TombstoneOnTheWay(t, hash, key)
  {
  }

  /** The slot of the key has the entry now, and all other slots have theirs. */
  ghost predicate OnlySlotOf(key: nat, e: Entry, t: seq<Entry>, t': seq<Entry>) {
    |t'| == |t| && forall i :: 0 <= i < |t| ==> t'[i] == if t[i].key == key then e else t[i]
  }

  lemma SlotOfKey(t: seq<Entry>, hash: nat -> nat, i: nat, e: Entry)
    requires WellProbed(t, hash) && i < |t| && t[i].key > DELETED
    ensures OnlySlotOf(t[i].key, e, t, t[i := e])
  {
    assert forall j :: 0 <= j < i ==> t[j].key != t[i].key;
  }

  lemma SearchBegins(t: seq<Entry>, hash: nat -> nat, key: nat)
    requires 0 < |t|
    ensures Passed(t, hash, key, 0) && NoTombstone(t, hash, key, 0)
  {
  }

  /** A search tells whether the key is there, and where. */
  lemma ArrivedAt(t: seq<Entry>, hash: nat -> nat, m: map<nat, nat>, key: nat, n: nat, i: nat)
    requires WellProbed(t, hash) && Represents(t, m) && key != DELETED && Arrived(t, hash, key, n, i)
    ensures i < |t| && (t[i].key == key || t[i].key == NULL)
    ensures key > DELETED ==> (t[i].key == key <==> key in m)
    ensures t[i].key != key ==> t[i].key == NULL && !HasKey(t, key) && FirstAt(t, hash, key, n, i)
    ensures key > DELETED ==> t[i].value == if key in m then m[key] else 0
    ensures key == NULL ==> t[i].value == 0
  {
    SearchEnds(t, hash, key, n);
    forall k: nat | k < n ensures t[i].key != key ==> Slot(hash(key), k, |t|) != i {
      assert !Stop(t, hash, key, k);
    }
  }

  lemma KeyOf(t: seq<Entry>, m: map<nat, nat>, key: nat)
    requires Represents(t, m) && key > DELETED
    ensures key in m <==> HasKey(t, key)
  {
  }

  /** A new key is stored in a free slot or in place of a tombstone. */
  lemma NewKeyStored(t: seq<Entry>, hash: nat -> nat, m: map<nat, nat>, nv: nat, nd: nat, n: nat, i: nat, e: Entry)
    requires Counted(t, hash, m, nv, nd) && i < |t| && t[i].key <= DELETED
    requires e.key > DELETED && e.key !in m && FirstAt(t, hash, e.key, n, i)
    ensures t[i].key == NULL ==> Counted(t[i := e], hash, m[e.key := e.value], nv + 1, nd)
    ensures t[i].key == DELETED ==> nd > 0 && Counted(t[i := e], hash, m[e.key := e.value], nv, nd - 1)
  {
    hide WellProbed, Passed, Slot, UsedSlots;
    KeyOf(t, m, e.key);
    WellProbedUnique(t, hash);
    SlotFilled(t, hash, i, e, n);
    StoredIn(t, m, i, e);
    SlotCounts(t, i, e);
    if t[i].key == DELETED { assert i in DeletedSlots(t); }
  }

  lemma WellProbedUnique(t: seq<Entry>, hash: nat -> nat)
    requires WellProbed(t, hash)
    ensures Unique(t) && IsPow2(|t|) && 0 < |t|
  {
  }

  /** A key that is there gets another value. */
  lemma ValueStored(t: seq<Entry>, hash: nat -> nat, m: map<nat, nat>, nv: nat, nd: nat, i: nat, value: nat)
    requires Counted(t, hash, m, nv, nd) && i < |t| && t[i].key > DELETED
    ensures Counted(t[i := Entry(value, t[i].key)], hash, m[t[i].key := value], nv, nd)
  {
    hide WellProbed, UsedSlots, DeletedSlots;
    WellProbedUnique(t, hash);
    ValueChanged(t, hash, i, value);
    StoredIn(t, m, i, Entry(value, t[i].key));
    SlotCounts(t, i, Entry(value, t[i].key));
  }

  /** A key makes way for a tombstone. */
  lemma KeyDeleted(t: seq<Entry>, hash: nat -> nat, m: map<nat, nat>, nv: nat, nd: nat, i: nat)
    requires Counted(t, hash, m, nv, nd) && i < |t| && t[i].key > DELETED
    ensures Counted(t[i := Entry(0, DELETED)], hash, m - {t[i].key}, nv, nd + 1)
    ensures |m - {t[i].key}| == nv - (nd + 1)
  {
    hide WellProbed, UsedSlots, DeletedSlots;
    WellProbedUnique(t, hash);
    SlotDeleted(t, hash, i);
    DeletedFrom(t, m, i);
    SlotCounts(t, i, Entry(0, DELETED));
  }

  /** These are not the counters of the table, whatever map it is taken for. */
  ghost predicate Miscounted(t: seq<Entry>, hash: nat -> nat, numValues: nat, numDeleted: nat) {
    forall m: map<nat, nat> :: !Counted(t, hash, m, numValues, numDeleted)
  }

  /** NULL is no key: an entry for it is counted like any other, but leaves its slot free, or makes a tombstone's slot
      free that still counts as used. So the counters are wrong afterwards, whatever the table is taken for. */
  lemma NullKeyMiscounts(t: seq<Entry>, hash: nat -> nat, m: map<nat, nat>, nv: nat, nd: nat, i: nat, value: nat)
    requires Counted(t, hash, m, nv, nd) && i < |t| && t[i].key <= DELETED
    ensures var t' := t[i := Entry(value, NULL)];
      if t[i].key == NULL then Miscounted(t', hash, nv + 1, nd)
      else nd > 0 && Miscounted(t', hash, nv, nd - 1)
  {
    hide UsedSlots, Represents, WellProbed;
    SlotCounts(t, i, Entry(value, NULL));
    if t[i].key == DELETED { assert i in DeletedSlots(t); }
  }

  // ----- Capacities that are no powers of two

  /** The slot of a probe is the sum of the steps, masked with the capacity less one each time. */
  function MaskedSlot(h: bv32, steps: seq<bv32>, capacity: bv32): bv32 {
    if steps == [] then h & (capacity - 1)
    else (MaskedSlot(h, steps[..|steps| - 1], capacity) + steps[|steps| - 1]) & (capacity - 1)
  }

  /** The usual test for a power of two. */
  predicate OneBit(n: bv32) {
    n != 0 && n & (n - 1) == 0
  }

  /** The lowest bit of the number. */
  function LowestBit(n: bv32): bv32 {
    n & (0 - n)
  }

  ghost predicate LookedAt(s: bv32, capacity: bv32) {
    exists h: bv32, steps: seq<bv32> :: MaskedSlot(h, steps, capacity) == s
  }

  /** Masking leaves no slot out exactly if the capacity is a power of two. */
  lemma MaskReachesAll(capacity: bv32)
    requires capacity != 0
    ensures OneBit(capacity) <==> forall s: bv32 :: s < capacity ==> LookedAt(s, capacity)
  {
    hide OneBit, LowestBit;
    if OneBit(capacity) {
      forall s: bv32 | s < capacity ensures LookedAt(s, capacity) {
        MaskIsNothing(s, capacity);
        assert MaskedSlot(s, [], capacity) == s;
      }
    } else {
      LowestBitInside(capacity);
      forall h: bv32, steps: seq<bv32> ensures MaskedSlot(h, steps, capacity) != LowestBit(capacity) {
        NeverReached(h, steps, capacity);
      }
      assert !LookedAt(LowestBit(capacity), capacity);
    }
  }

  /** In a table of any other capacity, the slot with the number of its lowest bit is never looked at, whatever the
      key and the steps. */
  lemma NeverReached(h: bv32, steps: seq<bv32>, capacity: bv32)
    requires capacity != 0 && !OneBit(capacity)
    ensures LowestBit(capacity) < capacity && MaskedSlot(h, steps, capacity) != LowestBit(capacity)
  {
    hide OneBit, LowestBit, MaskedSlot;
    LowestBitInside(capacity);
    var x := LastMasked(h, steps, capacity);
    LowestBitMasked(x, capacity);
  }

  lemma LastMasked(h: bv32, steps: seq<bv32>, capacity: bv32) returns (x: bv32)
    ensures MaskedSlot(h, steps, capacity) == x & (capacity - 1)
  {
    x := if steps == [] then h else MaskedSlot(h, steps[..|steps| - 1], capacity) + steps[|steps| - 1];
  }

  lemma MaskIsNothing(s: bv32, n: bv32)
    requires OneBit(n) && s < n
    ensures s & (n - 1) == s
  {
  }

  lemma LowestBitInside(n: bv32)
    requires n != 0 && !OneBit(n)
    ensures LowestBit(n) < n
  {
  }

  lemma LowestBitMasked(x: bv32, n: bv32)
    requires n != 0 && !OneBit(n)
    ensures x & (n - 1) != LowestBit(n)
  {
  }

  /** With six slots, for instance, just four are ever looked at. */
  lemma SixSlotsHideTwo(h: bv32, steps: seq<bv32>)
    ensures MaskedSlot(h, steps, 6) in {0, 1, 4, 5}
  {
    var x := LastMasked(h, steps, 6);
    MaskFive(x);
  }

  lemma MaskFive(x: bv32)
    ensures x & 5 in {0, 1, 4, 5}
  {
  }

  // ----- Rehashing

  lemma PrefixKey(t: seq<Entry>, i: nat, key: nat)
    requires i < |t|
    ensures HasKey(t[..i + 1], key) <==> HasKey(t[..i], key) || t[i].key == key
  {
    var s, s' := t[..i], t[..i + 1];
    assert s'[i] == t[i];
    if HasKey(s, key) {
      var j :| 0 <= j < |s| && s[j].key == key;
      assert s'[j].key == key;
    }
    if HasKey(s', key) && t[i].key != key {
      var j :| 0 <= j < |s'| && s'[j].key == key;
      assert s[j].key == key;
    }
  }

  /** The live entries of the first i slots stand for the partial map. */
  lemma PrefixGrows(t: seq<Entry>, i: nat, part: map<nat, nat>)
    requires Unique(t) && i < |t| && Represents(t[..i], part)
    ensures t[i].key > DELETED ==> t[i].key !in part && Represents(t[..i + 1], part[t[i].key := t[i].value])
    ensures t[i].key <= DELETED ==> Represents(t[..i + 1], part)
  {
    hide HasKey;
    var s, s' := t[..i], t[..i + 1];
    assert forall j :: 0 <= j < i ==> s'[j] == s[j];
    forall key ensures HasKey(s', key) <==> HasKey(s, key) || t[i].key == key {
      PrefixKey(t, i, key);
    }
    NotBefore(t, i, part);
    if t[i].key > DELETED {
      GrownBy(s, s', part, t[i]);
    }
  }

  lemma NotBefore(t: seq<Entry>, i: nat, part: map<nat, nat>)
    requires Unique(t) && i < |t| && Represents(t[..i], part)
    ensures t[i].key > DELETED ==> t[i].key !in part
  {
  }

  lemma GrownBy(s: seq<Entry>, s': seq<Entry>, part: map<nat, nat>, e: Entry)
    requires Represents(s, part) && e.key > DELETED && e.key !in part && s' == s + [e]
    requires forall key :: HasKey(s', key) <==> HasKey(s, key) || e.key == key
    ensures Represents(s', part[e.key := e.value])
  {
    hide HasKey;
    forall i | 0 <= i < |s'| && s'[i].key > DELETED
      ensures s'[i].key in part[e.key := e.value] && part[e.key := e.value][s'[i].key] == s'[i].value
    {
      if i < |s| { assert s'[i] == s[i]; }
    }
  }

  /** While there are keys left to copy, fewer are copied than there are. */
  lemma PartSmaller(t: seq<Entry>, m: map<nat, nat>, i: nat, part: map<nat, nat>)
    requires Represents(t, m) && i <= |t| && Represents(t[..i], part)
    ensures |part| <= |m|
    ensures i < |t| && t[i].key > DELETED && t[i].key !in part ==> |part| < |m|
  {
    forall key | key in part ensures key in m {
      var j :| 0 <= j < |t[..i]| && t[..i][j].key == key;
      assert t[j].key == key;
    }
    Smaller(part.Keys, m.Keys);
    if i < |t| && t[i].key > DELETED && t[i].key !in part {
      Smaller(part.Keys + {t[i].key}, m.Keys);
    }
  }

  // ----- Load factors

  /** The rule of grow: double above one half, halve below one fifth, but not below the default size. */
  function NewTableSize(occupied: nat, size: nat): nat {
    if 2 * occupied > size then 2 * size
    else if 5 * occupied < size && size > 16 then size / 2
    else size
  }

  /** What the rule is for: the contents fill at most half of the table they move to. It is larger than the present one
      only if they fill more than a quarter of it, and smaller only if they fill less than two fifths of it, so that
      no table is doubled and halved in turn; and a table that keeps its size is a fifth full or of the default size. */
  lemma NewTableSizeFits(occupied: nat, size: nat)
    requires IsPow2(size) && occupied <= size
    ensures var newSize := NewTableSize(occupied, size);
      && 2 * occupied <= newSize
      && (newSize > size ==> 4 * occupied > newSize)
      && (newSize < size ==> 2 * newSize == size && 5 * occupied < 2 * newSize && newSize >= 16)
      && (newSize == size ==> 5 * occupied >= size || size <= 16)
  {
    if size > 16 {
      var k: nat :| size == Pow2(k);
      AboveSixteen(k);
    }
  }

  lemma {:induction false} AboveSixteen(k: nat)
    ensures if k < 5 then Pow2(k) <= 16 else Pow2(k) >= 32
  {
    if k > 5 {
      AboveSixteen(k - 1);
    } else {
      assert Pow2(2) == 2 * Pow2(1) == 4;
      assert Pow2(4) == 2 * Pow2(3) == 16;
    }
  }

  lemma NewTableSizeIsPow2(occupied: nat, size: nat)
    requires IsPow2(size)
    ensures IsPow2(NewTableSize(occupied, size))
  {
    var k: nat :| size == Pow2(k);
    assert Pow2(k + 1) == 2 * size;
    if size > 16 { assert size == 2 * Pow2(k - 1); }
  }

  /** A rehash keeps a slot free, and two of them if there were four slots at all. */
  lemma RoomAfterRehash(occupied: nat, size: nat)
    requires IsPow2(size) && occupied < size
    ensures occupied < NewTableSize(occupied, size)
    ensures 4 <= size ==> occupied + 1 < NewTableSize(occupied, size) && 4 <= NewTableSize(occupied, size)
  {
    var k: nat :| size == Pow2(k);
    if size > 16 { assert size == 2 * Pow2(k - 1); }
  }

  /** Using another slot without growing keeps a slot free. */
  ghost predicate LeavesRoom(size: nat, used: nat) {
    used < size && used * 4 < size * 3 ==> used + 1 < size
  }

  /** The rule of put keeps a slot free exactly if the table has at least four slots; a table of one or two
      slots, which only the constructor can make, fills up at the key that finds a single slot free. */
  lemma LoadFactorKeepsRoom(size: nat)
    requires IsPow2(size)
    ensures (forall used: nat :: LeavesRoom(size, used)) <==> 4 <= size
  {
    var k: nat :| size == Pow2(k);
    if k >= 2 {
      var quarter := Pow2(k - 2);
      assert Pow2(k - 1) == 2 * quarter && size == 4 * quarter;
      forall used: nat ensures LeavesRoom(size, used) {}
    } else {
      assert size == 1 || size == 2;
      var used: nat := size - 1;
      assert !LeavesRoom(size, used);
    }
  }
}
