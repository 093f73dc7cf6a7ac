/** The class of MMgc/GCHashtable.h: find, put, remove, prune, grow and clear over one array, and that they
    behave as the operations of a finite map. */
module GCHashtable {
  import opened Probing
  import opened HashTable

  ghost predicate Zeroed(t: seq<Entry>) {
    forall i :: 0 <= i < |t| ==> t[i] == NO_ENTRY
  }

  const NO_DELINDEX: int := -1

  /** What a client does with a table. The flags say whether the heap is in its abort state and whether it
      refuses memory, at that moment. */
  datatype Op =
    | Put(key: nat, value: nat)
    | Remove(key: nat, allowRehash: bool, aborted: bool, refused: bool)
    | Prune(aborted: bool, refused: bool)
    | Clear

  predicate Legal(op: Op) {
    op.Put? || op.Remove? ==> op.key > DELETED
  }

  ghost function Apply(op: Op, m: map<nat, nat>): map<nat, nat> {
    match op
    case Put(key, value) => m[key := value]
    case Remove(key, _, _, _) => m - {key}
    case Prune(_, _) => m
    case Clear => map[]
  }

  ghost function ApplyAll(ops: seq<Op>, m: map<nat, nat>): map<nat, nat> {
    if ops == [] then m else Apply(ops[|ops| - 1], ApplyAll(ops[..|ops| - 1], m))
  }

  class GCHashtable {
    const hash: nat -> nat
    const EMPTY: array<Entry>      // shared by all tables, and never written
    var table: array<Entry>
    var tableSize: nat
    var numValues: nat             // used slots, tombstones included
    var numDeleted: nat            // tombstones
    ghost var contents: map<nat, nat>

    /** The table stands for the contents. The placeholder pretends to be full, so that the first key makes it grow. */
    ghost predicate Sound()
      reads this, table, EMPTY
    {
      && EMPTY.Length == 4 && Zeroed(EMPTY[..])
      && tableSize == table.Length
      && (table == EMPTY ==> numValues == 4 && numDeleted == 0 && contents == map[])
      && (table != EMPTY ==> Counted(table[..], hash, contents, numValues, numDeleted))
    }

    /** Some slot is free: without it the next search for an absent key would not end. */
    ghost predicate HasRoom()
      reads this
    {
      table == EMPTY || numValues < tableSize
    }

    ghost predicate Valid()
      reads this, table, EMPTY
    {
      Sound() && HasRoom()
    }

    /** The entries that the table owns. */
    ghost function Own(): set<array<Entry>>
      reads this
    {
      if table == EMPTY then {} else {table}
    }

    constructor (hash: nat -> nat, EMPTY: array<Entry>, capacity: nat)
      requires EMPTY.Length == 4 && Zeroed(EMPTY[..])
      requires capacity == 0 || IsPow2(capacity)
      ensures Valid() && contents == map[] && fresh(Own())
      ensures this.hash == hash && this.EMPTY == EMPTY
      ensures if capacity == 0 then table == EMPTY else tableSize == capacity && numValues == 0
      ensures numDeleted == 0 && tableSize >= 1
    {
      this.hash, this.EMPTY := hash, EMPTY;
      contents, numDeleted := map[], 0;
      if capacity > 0 {
        tableSize, numValues := capacity, 0;
        table := new Entry[capacity](i => NO_ENTRY);
      } else {
        tableSize, numValues := 4, 4;
        table := EMPTY;
      }
      new;
      if capacity > 0 {
        EmptyTable(table[..], hash);
      }
    }

    method clear()
      requires Sound()
      modifies this
      ensures Valid() && contents == map[] && table == EMPTY && tableSize == 4
    {
      table := EMPTY;
      tableSize, numValues, numDeleted := 4, 4, 0;
      contents := map[];
    }

    /** put: the key maps to the value from now on, all other keys as before. A key that is there keeps its slot. A new
        one takes the place of a tombstone if its search meets one, and otherwise a free slot, but makes the table
        grow if three quarters of it or more are used. A table of at least four slots keeps a free one. If the key is
        NULL, the counters are wrong afterwards. */
    method put(key: nat, value: nat)
      requires Valid() && key != DELETED
      modifies this, Own()
      ensures key != NULL ==> Sound() && contents == old(contents)[key := value]
      ensures fresh(Own() - old(Own()))
      ensures key != NULL && old(tableSize) >= 4 ==> Valid() && tableSize >= 4
      ensures key in old(contents) ==>
                && table == old(table) && tableSize == old(tableSize)
                && OnlySlotOf(key, Entry(value, key), old(table[..]), table[..])
      ensures key != NULL && key !in old(contents) &&
              TombstoneOnTheWay(old(table[..]), hash, key) ==>
                && table == old(table) && tableSize == old(tableSize)
                && numValues == old(numValues) && numDeleted == old(numDeleted) - 1
      ensures key != NULL && key !in old(contents) &&
              !TombstoneOnTheWay(old(table[..]), hash, key) ==>
                if old(numValues) * 4 < old(tableSize) * 3 then
                  && table == old(table) && tableSize == old(tableSize)
                  && numValues == old(numValues) + 1 && numDeleted == old(numDeleted)
                else
                  && fresh(table) && numDeleted == 0 && numValues == |old(contents)| + 1
                  && tableSize == NewTableSize(old(numValues - numDeleted), old(tableSize))
      ensures key == NULL ==> table != EMPTY && Miscounted(table[..], hash, numValues, numDeleted)
    {
      hide Arrived, FirstAt, Counted, Miscounted, WellProbed, Represents, Zeroed, OnlySlotOf, TombstoneOnTheWay,
           NewTableSize;
      var i, delindex, n, dn := Probe(key);
      Searchable();
      ArrivedAt(table[..], hash, contents, key, n, i);
      if table[i].key != NULL {
        StoreValue(i, key, value);
      } else if delindex != NO_DELINDEX {
        TombstoneFree(delindex);
        StoreKey(delindex, key, value, dn);
      } else if numValues * 4 >= tableSize * 3 {
        grow(false, false, false);
        PutGrown(key, value);
      } else {
        StoreKey(i, key, value, n);
      }
    }

    /** Only a table of its own has tombstones. */
    lemma TombstoneFree(i: nat)
      requires Sound() && i < tableSize && table[i].key == DELETED
      ensures table != EMPTY && numDeleted > 0
    {
      assert EMPTY[..][0] == NO_ENTRY && EMPTY[..][1] == NO_ENTRY && EMPTY[..][2] == NO_ENTRY
          && EMPTY[..][3] == NO_ENTRY;
      assert i in DeletedSlots(table[..]);
    }

    method StoreValue(i: nat, key: nat, value: nat)
      requires Valid() && i < tableSize && table[i].key == key && key > DELETED
      modifies this, Own()
      ensures Valid() && contents == old(contents)[key := value]
      ensures table == old(table) && tableSize == old(tableSize)
      ensures OnlySlotOf(key, Entry(value, key), old(table[..]), table[..])
    {
      hide Counted, WellProbed, Represents, OnlySlotOf;
      assert table != EMPTY by {
        assert EMPTY[..][0] == NO_ENTRY && EMPTY[..][1] == NO_ENTRY && EMPTY[..][2] == NO_ENTRY
            && EMPTY[..][3] == NO_ENTRY;
      }
      ghost var t := table[..];
      ValueStored(t, hash, contents, numValues, numDeleted, i, value);
      Searchable();
      SlotOfKey(t, hash, i, Entry(value, key));
      table[i] := Entry(value, key);
      assert table[..] == t[i := Entry(value, key)];
      contents := contents[key := value];
    }

    /** A new key in a free slot, which is used from now on, or in place of a tombstone, which is no more. */
    method StoreKey(i: nat, key: nat, value: nat, ghost steps: nat)
      requires Sound() && table != EMPTY && i < tableSize && table[i].key <= DELETED && key != DELETED
      requires key != NULL ==> key !in contents && 0 < tableSize && FirstAt(table[..], hash, key, steps, i)
      modifies this, table
      ensures table == old(table) && tableSize == old(tableSize)
      ensures key != NULL ==> Sound() && contents == old(contents)[key := value]
      ensures key == NULL ==> Miscounted(table[..], hash, numValues, numDeleted)
      ensures numValues == old(numValues) + if old(table[i].key) == DELETED then 0 else 1
      ensures numDeleted == old(numDeleted) - if old(table[i].key) == DELETED then 1 else 0
    {
      hide FirstAt, Counted, Miscounted, WellProbed, Represents;
      ghost var t := table[..];
      if key == NULL {
        NullKeyMiscounts(t, hash, contents, numValues, numDeleted, i, value);
      } else {
        NewKeyStored(t, hash, contents, numValues, numDeleted, steps, i, Entry(value, key));
      }
      if table[i].key == DELETED {
        numDeleted := numDeleted - 1;
      } else {
        numValues := numValues + 1;
      }
      table[i] := Entry(value, key);
      assert table[..] == t[i := Entry(value, key)];
      if key != NULL { contents := contents[key := value]; }
    }

    /** The rest of put after growing: an ordinary search finds a free slot. */
    method PutGrown(key: nat, value: nat)
      requires Valid() && table != EMPTY && key != DELETED && key !in contents
      modifies this, table
      ensures table == old(table) && tableSize == old(tableSize)
      ensures numValues == old(numValues) + 1 && numDeleted == old(numDeleted)
      ensures key != NULL ==> Sound() && contents == old(contents)[key := value]
      ensures key == NULL ==> Miscounted(table[..], hash, numValues, numDeleted)
    {
      hide Arrived, FirstAt, Counted, WellProbed, Represents;
      Searchable();
      WellProbedUnique(table[..], hash);
      var i, n := find(hash, key, table, tableSize);
      ArrivedAt(table[..], hash, contents, key, n, i);
      StoreKey(i, key, value, n);
    }

    /** remove: the key is gone and its value returned; an absent key changes nothing and yields 0. The key leaves a
        tombstone in its slot and nothing else changes, as an iterator needs it, unless the caller allows for a rehash,
        less than a fifth of the table is left, the heap is not in its abort state, and memory is not refused. Then
        the contents move to a table without tombstones, of half the size if that is above the default. */
    method remove(key: nat, allowRehash: bool, aborted: bool, refused: bool) returns (ret: nat)
      requires Valid() && key > DELETED
      modifies this, Own()
      ensures Valid() && contents == old(contents) - {key}
      ensures ret == if key in old(contents) then old(contents)[key] else 0
      ensures old(tableSize) >= 4 ==> tableSize >= 4
      ensures key !in old(contents) ==> unchanged(this) && unchanged(Own())
      ensures fresh(Own() - old(Own()))
      ensures table != old(table) <==>
                && key in old(contents) && allowRehash && !aborted && !refused
                && 5 * |contents| < old(tableSize)
      ensures key in old(contents) && table == old(table) ==>
                && tableSize == old(tableSize) && OnlySlotOf(key, Entry(0, DELETED), old(table[..]), table[..])
                && numValues == old(numValues) && numDeleted == old(numDeleted) + 1
      ensures table != old(table) ==>
                && numValues == |contents| && numDeleted == 0
                && tableSize == if old(tableSize) > 16 then old(tableSize) / 2 else old(tableSize)
    {
      hide Arrived, FirstAt, Counted, WellProbed, Represents, Zeroed, OnlySlotOf;
      Searchable();
      WellProbedUnique(table[..], hash);
      var i, n := find(hash, key, table, tableSize);
      ArrivedAt(table[..], hash, contents, key, n, i);
      ret := 0;
      if table[i].key == key {
        ret := table[i].value;
        MakeTombstone(i, key);
        if allowRehash && (numValues - numDeleted) * 5 < tableSize {
          grow(true, aborted, refused);
        }
      }
    }

    method MakeTombstone(i: nat, key: nat)
      requires Valid() && i < tableSize && table[i].key == key && key > DELETED
      modifies this, Own()
      ensures Valid() && contents == old(contents) - {key} && |contents| == numValues - numDeleted
      ensures table == old(table) && tableSize == old(tableSize)
      ensures table != EMPTY && OnlySlotOf(key, Entry(0, DELETED), old(table[..]), table[..])
      ensures numValues == old(numValues) && numDeleted == old(numDeleted) + 1
    {
      hide Counted, WellProbed, Represents, OnlySlotOf;
      assert table != EMPTY by {
        assert EMPTY[..][0] == NO_ENTRY && EMPTY[..][1] == NO_ENTRY && EMPTY[..][2] == NO_ENTRY
            && EMPTY[..][3] == NO_ENTRY;
      }
      ghost var t := table[..];
      KeyDeleted(t, hash, contents, numValues, numDeleted, i);
      Searchable();
      SlotOfKey(t, hash, i, Entry(0, DELETED));
      table[i] := Entry(0, DELETED);
      assert table[..] == t[i := Entry(0, DELETED)];
      contents := contents - {key};
      numDeleted := numDeleted + 1;
    }

    /** prune: as remove does, after any number of removals that did not. The placeholder, which counts as full,
        stays. */
    method prune(aborted: bool, refused: bool)
      requires Valid()
      modifies this
      ensures Valid() && contents == old(contents)
      ensures old(tableSize) >= 4 ==> tableSize >= 4
      ensures fresh(Own() - old(Own()))
      ensures table != old(table) <==>
                && old(table) != EMPTY && !aborted && !refused && 5 * |contents| < old(tableSize)
      ensures table == old(table) ==> unchanged(this)
      ensures table != old(table) ==>
                && numValues == |contents| && numDeleted == 0
                && tableSize == if old(tableSize) > 16 then old(tableSize) / 2 else old(tableSize)
    {
      hide Counted, WellProbed, Represents, Zeroed;
      Occupied();
      if (numValues - numDeleted) * 5 < tableSize {
        grow(true, aborted, refused);
      }
    }

    /** What a search needs: a free slot. The placeholder consists of nothing else. */
    lemma Searchable()
      requires Valid()
      ensures WellProbed(table[..], hash) && Represents(table[..], contents)
      ensures |UsedSlots(table[..])| < tableSize == |table[..]|
    {
      if table == EMPTY {
        assert Pow2(2) == 2 * Pow2(1) == 4;
        EmptyTable(table[..], hash);
      }
    }

    static method find(hash: nat -> nat, key: nat, table: array<Entry>, tableSize: nat)
      returns (i: nat, ghost steps: nat)
      requires tableSize == table.Length && IsPow2(tableSize) && |UsedSlots(table[..])| < tableSize
      requires key != DELETED
      ensures i < tableSize && (table[i].key == NULL || table[i].key == key)
      ensures Arrived(table[..], hash, key, steps, i)
    {
      hide UsedSlots, IsPow2, Slot;
      ghost var t := table[..];
      ghost var stop := FreeSlotProbed(t, hash(key));
      FirstSlot(hash(key), tableSize);
      var n := 0;
      i := hash(key) % tableSize;
      while table[i].key != NULL && table[i].key != key
        invariant n <= stop && i == Slot(hash(key), n, tableSize) && i < tableSize
        invariant Passed(t, hash, key, n)
        decreases stop - n
      {
        NextSlot(hash(key), n, tableSize);
        n := n + 1;
        i := (i + n) % tableSize;
      }
      steps := n;
    }

    /** Where a search starts. */
    static lemma FirstSlot(h: nat, size: nat)
      requires 0 < size
      ensures Slot(h, 0, size) == h % size
    {
    }

    method get(key: nat) returns (value: nat)
      requires Valid() && key != DELETED
      ensures value == if key in contents then contents[key] else 0
    {
      hide Counted, WellProbed, Represents, UsedSlots, IsPow2, Arrived;
      Searchable();
      WellProbedUnique(table[..], hash);
      var i, n := find(hash, key, table, tableSize);
      ArrivedAt(table[..], hash, contents, key, n, i);
      NullIsNoKey(table[..], contents);
      value := table[i].value;
    }

    static lemma NullIsNoKey(t: seq<Entry>, m: map<nat, nat>)
      requires Represents(t, m)
      ensures NULL !in m && DELETED !in m
    {
    }

    /** The search of put, which also notes the first tombstone on its way. */
    method Probe(key: nat) returns (i: nat, delindex: int, ghost steps: nat, ghost delsteps: nat)
      requires Valid() && key != DELETED
      ensures Arrived(table[..], hash, key, steps, i)
      ensures delindex != NO_DELINDEX ==> 0 <= delindex < tableSize && table[delindex].key == DELETED
      ensures delindex != NO_DELINDEX ==> FirstAt(table[..], hash, key, delsteps, delindex)
      ensures delindex != NO_DELINDEX <==> TombstoneOnTheWay(table[..], hash, key)
    {
      hide UsedSlots, IsPow2, Slot, Counted, WellProbed, Represents, Passed, NoTombstone, FirstAt, TombstoneOnTheWay;
      ghost var t := table[..];
      Searchable();
      WellProbedUnique(t, hash);
      ghost var stop := FreeSlotProbed(t, hash(key));
      FirstSlot(hash(key), tableSize);
      SearchBegins(t, hash, key);
      var n := 0;
      delindex, delsteps := NO_DELINDEX, 0;
      i := hash(key) % tableSize;
      while table[i].key != NULL && table[i].key != key
        invariant n <= stop && i == Slot(hash(key), n, tableSize) && i < tableSize
        invariant Passed(t, hash, key, n)
        invariant delindex == NO_DELINDEX ==> NoTombstone(t, hash, key, n)
        invariant delindex != NO_DELINDEX ==> 0 <= delindex < tableSize && t[delindex].key == DELETED
        invariant delindex != NO_DELINDEX ==> FirstAt(t, hash, key, delsteps, delindex)
        decreases stop - n
      {
        if table[i].key == DELETED && delindex == NO_DELINDEX {
          delindex, delsteps := i, n;
          FirstTombstone(t, hash, key, n);
        }
        PassedOn(t, hash, key, n);
        NextSlot(hash(key), n, tableSize);
        n := n + 1;
        i := (i + n) % tableSize;
      }
      steps := n;
      if delindex == NO_DELINDEX {
        NoneOnTheWay(t, hash, key, n);
      } else {
        OneOnTheWay(t, hash, key, delsteps, delindex);
      }
    }

    static lemma FirstTombstone(t: seq<Entry>, hash: nat -> nat, key: nat, n: nat)
      requires 0 < |t| && n < |t| && Passed(t, hash, key, n) && NoTombstone(t, hash, key, n)
      requires t[Slot(hash(key), n, |t|)].key == DELETED
      ensures FirstAt(t, hash, key, n, Slot(hash(key), n, |t|))
    {
    }

    /** The loop of grow: every live entry moves to the new table. */
    static method Rehash(hash: nat -> nat, table: array<Entry>, newTable: array<Entry>, ghost m: map<nat, nat>)
      returns (numValues: nat)
      requires WellProbed(table[..], hash) && Represents(table[..], m) && table != newTable
      requires Zeroed(newTable[..]) && IsPow2(newTable.Length) && |m| < newTable.Length
      modifies newTable
      ensures Counted(newTable[..], hash, m, numValues, 0)
    {
      hide Represents, WellProbed, Zeroed, IsPow2, Counted;
      ghost var t := table[..];
      ghost var part: map<nat, nat> := map[];
      StartRehash(newTable[..], hash, t);
      numValues := 0;
      var i := 0;
      while i < table.Length
        invariant 0 <= i <= table.Length && table[..] == t
        invariant Represents(t[..i], part) && Counted(newTable[..], hash, part, numValues, 0)
      {
        numValues, part := CopyEntry(hash, table, i, newTable, numValues, m, part);
        i := i + 1;
      }
      assert t[..i] == t;
      SameMap(t, m, part);
    }

    static lemma StartRehash(new_: seq<Entry>, hash: nat -> nat, t: seq<Entry>)
      requires Zeroed(new_) && IsPow2(|new_|) && 0 < |new_|
      ensures Counted(new_, hash, map[], 0, 0) && Represents(t[..0], map[])
    {
      EmptyTable(new_, hash);
    }

    /** The body of that loop. */
    static method CopyEntry(hash: nat -> nat, table: array<Entry>, i: nat, newTable: array<Entry>, numValues: nat,
                            ghost m: map<nat, nat>, ghost part: map<nat, nat>)
      returns (numValues': nat, ghost part': map<nat, nat>)
      requires i < table.Length && table != newTable
      requires WellProbed(table[..], hash) && Represents(table[..], m) && |m| < newTable.Length
      requires Represents(table[..][..i], part) && Counted(newTable[..], hash, part, numValues, 0)
      modifies newTable
      ensures Represents(table[..][..i + 1], part') && Counted(newTable[..], hash, part', numValues', 0)
    {
      hide Represents, WellProbed, IsPow2, Counted, UsedSlots, DeletedSlots, Arrived, FirstAt;
      ghost var t := table[..];
      WellProbedUnique(t, hash);
      PrefixGrows(t, i, part);
      numValues', part' := numValues, part;
      var oldKey := table[i].key;
      if oldKey > DELETED {
        PartSmaller(t, m, i, part);
        CountedRoom(newTable[..], hash, part, numValues);
        var j, n := find(hash, oldKey, newTable, newTable.Length);
        ghost var t' := newTable[..];
        ArrivedAt(t', hash, part, oldKey, n, j);
        NewKeyStored(t', hash, part, numValues, 0, n, j, t[i]);
        newTable[j] := Entry(table[i].value, oldKey);
        assert newTable[..] == t'[j := t[i]];
        numValues', part' := numValues + 1, part[oldKey := t[i].value];
      }
    }

    static lemma CountedRoom(t: seq<Entry>, hash: nat -> nat, m: map<nat, nat>, numValues: nat)
      requires Counted(t, hash, m, numValues, 0)
      ensures WellProbed(t, hash) && Represents(t, m) && IsPow2(|t|) && |UsedSlots(t)| == |m|
    {
    }

    /** grow: the contents move to a table of a new size, without tombstones. A removal may be refused the
        memory, or find the heap in its abort state, and then leaves everything alone. */
    method grow(isRemoval: bool, aborted: bool, refused: bool)
      requires Valid() && (refused ==> isRemoval)
      modifies this
      ensures Valid() && contents == old(contents)
      ensures isRemoval && (aborted || refused) ==> unchanged(this)
      ensures !(isRemoval && (aborted || refused)) ==>
                && table != EMPTY && fresh(table) && numDeleted == 0 && numValues == |contents|
                && tableSize == NewTableSize(old(numValues - numDeleted), old(tableSize))
      ensures !(isRemoval && (aborted || refused)) && old(tableSize) >= 4 ==>
                tableSize >= 4 && numValues + 1 < tableSize
    {
      hide Represents, WellProbed, Zeroed, IsPow2, Counted, NewTableSize;
      if isRemoval && aborted { return; }
      Searchable();
      WellProbedUnique(table[..], hash);
      Occupied();
      var newTableSize := NewTableSize(numValues - numDeleted, tableSize);
      NewTableSizeIsPow2(numValues - numDeleted, tableSize);
      if refused { return; }
      var newTable := new Entry[newTableSize](i => NO_ENTRY);
      assert Zeroed(newTable[..]) by { Zeroes(newTable[..]); }
      numValues := Rehash(hash, table, newTable, contents);
      numDeleted := 0;
      table, tableSize := newTable, newTableSize;
      Sized(table[..], hash, contents, numValues);
    }

    static lemma Zeroes(t: seq<Entry>)
      requires forall i :: 0 <= i < |t| ==> t[i] == NO_ENTRY
      ensures Zeroed(t)
    {
    }

    static lemma Sized(t: seq<Entry>, hash: nat -> nat, m: map<nat, nat>, numValues: nat)
      requires Counted(t, hash, m, numValues, 0)
      ensures numValues == |m|
    {
    }

    /** The new size is enough for the contents. */
    lemma Occupied()
      requires Valid()
      ensures numDeleted <= numValues && (table != EMPTY ==> |contents| == numValues - numDeleted)
      ensures |contents| < NewTableSize(numValues - numDeleted, tableSize)
      ensures tableSize >= 4 ==> |contents| + 1 < NewTableSize(numValues - numDeleted, tableSize)
      ensures tableSize >= 4 ==> NewTableSize(numValues - numDeleted, tableSize) >= 4
    {
      if table != EMPTY { RoomAfterRehash(numValues - numDeleted, tableSize); }
    }

    function count(): nat
      requires Valid()
      reads this, table, EMPTY
    {
      assert Counted(table[..], hash, contents, numValues, numDeleted) || table == EMPTY;
      numValues - numDeleted
    }

    /** The number of keys, but four for the placeholder, which has none. */
    lemma CountIsSize()
      requires Valid()
      ensures count() == if table == EMPTY then 4 else |contents|
      ensures count() == |contents| <==> table != EMPTY
    {
    }

    /** A full table, of which some key is not part, never ends the search for that key. */
    lemma FullTableNeverAnswers(key: nat)
      requires Sound() && !HasRoom() && key > DELETED && key !in contents
      ensures forall n :: !Stop(table[..], hash, key, n)
    {
      var t := table[..];
      KeyOf(t, contents, key);
      BelowSize(|t|);
      Smaller(UsedSlots(t), Below(|t|));
      SubsetOfSameSize(UsedSlots(t), Below(|t|));
      forall i | 0 <= i < |t| ensures t[i].key != NULL {
        assert i in Below(|t|);
      }
      SearchEndsIffFreeSlot(t, hash, key);
    }

    lemma NoTombstones(key: nat)
      requires Valid() && numDeleted == 0
      ensures 0 < table.Length && !TombstoneOnTheWay(table[..], hash, key)
    {
      var t := table[..];
      assert table == EMPTY ==> t[0] == NO_ENTRY && t[1] == NO_ENTRY && t[2] == NO_ENTRY && t[3] == NO_ENTRY;
      forall n: nat ensures t[Slot(hash(key), n, |t|)].key != DELETED {
        assert Slot(hash(key), n, |t|) !in DeletedSlots(t);
      }
    }

    method Perform(op: Op)
      requires Valid() && tableSize >= 4 && Legal(op)
      modifies this, Own()
      ensures Valid() && tableSize >= 4 && contents == Apply(op, old(contents))
      ensures fresh(Own() - old(Own()))
    {
      hide Sound, HasRoom;
      match op {
        case Put(key, value) => put(key, value);
        case Remove(key, allowRehash, aborted, refused) =>
          var _ := remove(key, allowRehash, aborted, refused);
        case Prune(aborted, refused) => prune(aborted, refused);
        case Clear => ClearSound(); clear();
      }
    }

    lemma ClearSound()
      requires Valid()
      ensures Sound()
    {
    }

    /** Any run of puts, removals, prunes and clears, whatever memory is refused, leaves the table standing
        for the map that the same run makes of the initial map; all searches on the way end. */
    method Run(ops: seq<Op>)
      requires Valid() && tableSize >= 4 && forall i :: 0 <= i < |ops| ==> Legal(ops[i])
      modifies this, Own()
      ensures Valid() && tableSize >= 4 && contents == ApplyAll(ops, old(contents))
    {
      hide Valid, Apply;
      var i := 0;
      assert ops[..0] == [];
      while i < |ops|
        invariant 0 <= i <= |ops|
        invariant Valid() && tableSize >= 4 && contents == ApplyAll(ops[..i], old(contents))
        invariant fresh(Own() - old(Own()))
      {
        assert ops[..i + 1][..i] == ops[..i];
        Perform(ops[i]);
        i := i + 1;
      }
      assert ops[..|ops|] == ops;
    }
  }

  /** A table made for two entries takes two keys and is full: the search for a third would not end. */
  method SmallTableFillsUp(hash: nat -> nat, EMPTY: array<Entry>, a: nat, b: nat, c: nat) returns (ht: GCHashtable)
    requires EMPTY.Length == 4 && Zeroed(EMPTY[..])
    requires DELETED < a < b < c
    ensures ht.Sound() && c !in ht.contents && forall n :: !Stop(ht.table[..], hash, c, n)
  {
    hide Counted, WellProbed, Represents, Zeroed, Stop;
    assert Pow2(1) == 2;
    ht := new GCHashtable(hash, EMPTY, 2);
    ht.NoTombstones(a);
    ht.put(a, 1);
    assert ht.HasRoom();
    ht.NoTombstones(b);
    ht.put(b, 1);
    ht.FullTableNeverAnswers(c);
  }
}
