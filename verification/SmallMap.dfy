/** An insertion-ordered map over a two-column list, with a hash index once it has grown past a
    threshold (starlark_map/src/small_map.rs). */
module SmallMaps {
  import opened Integers
  import opened Options
  import opened Sequences
  import opened HashValue
  import opened HashTables
  import opened Sorting
  import opened Vec2Storage
  import opened VecMaps
  import opened MapIndex
  import opened AssocLists
  import opened Retaining
  import opened KeyOrder

  /** Largest map without an index, on stable and on nightly toolchains. */
  const NO_INDEX_THRESHOLD_STABLE := 16
  const NO_INDEX_THRESHOLD_NIGHTLY := 32

  class SmallMap<K(!new, 0), V(0)> {
    const ops: KeyOps<K>
    /** Nightly toolchains scan hashes with SIMD and use the larger threshold. */
    const nightly: bool
    const entries: VecMap<K, V>
    var index: HashTable?
    /** The objects this map may change. */
    ghost var Repr: set<object>

    function Threshold(): nat {
      if nightly then NO_INDEX_THRESHOLD_NIGHTLY else NO_INDEX_THRESHOLD_STABLE
    }

    /** The objects this map is made of, now. */
    ghost function Footprint(): set<object>
      reads this, entries
    {
      {this, entries, entries.aaa, entries.bbb} + if index == null then {} else var t: HashTable := index; {t}
    }

    /** The entry list with its hash column. */
    ghost function Slots(): seq<Slot<K, V>>
      requires entries.Valid()
      reads entries, entries.aaa, entries.bbb
    {
      entries.Contents()
    }

    /** The abstract value: the entries in iteration order. */
    ghost function List(): AssocList<K, V>
      requires entries.Valid()
      reads entries, entries.aaa, entries.bbb
    {
      Entries(Slots())
    }

    ghost predicate IndexValid()
      requires entries.Valid()
      reads this, entries, entries.aaa, entries.bbb, index
    {
      if index == null then entries.len <= Threshold()
      else index.Valid() && IndexAgrees(index.items, Slots())
    }

    /** The two columns and the keys are in order; nothing is said about the index. */
    ghost predicate EntriesValid()
      reads entries, entries.aaa, entries.bbb
    {
      entries.Valid() && SlotsValid(ops, Slots())
    }

    /** Entries and index are in order. */
    ghost predicate ContentValid()
      reads this, entries, entries.aaa, entries.bbb, index
    {
      EntriesValid() && IndexValid()
    }

    ghost predicate Valid()
      reads this, entries, entries.aaa, entries.bbb, index
      ensures Valid() ==> entries.Valid() && entries.aaa in Repr
    {
      ContentValid() && Footprint() <= Repr
    }

    constructor WithCapacity(ops: KeyOps<K>, nightly: bool, n: nat, minNonZeroCap: nat)
      requires Lawful(ops) && 0 < minNonZeroCap
      ensures Valid() && fresh(Repr)
      ensures List() == [] && this.ops == ops && this.nightly == nightly
      ensures entries.aaa.Length == n && HasRoom(n)
      ensures index != null <==> n > Threshold()
    {
      this.ops := ops;
      this.nightly := nightly;
      var e := new Vec2<(K, V), u32>.WithCapacity(n, minNonZeroCap);
      var t: HashTable? := null;
      if n > (if nightly then NO_INDEX_THRESHOLD_NIGHTLY else NO_INDEX_THRESHOLD_STABLE) {
        t := new HashTable.WithCapacity(n);
      }
      entries := e;
      index := t;
      new;
      Repr := Footprint();
    }

    // ---- lookup ----

    method GetIndexOfHashedRaw(q: Query<K>) returns (r: Option<nat>)
      requires Valid() && LawfulQuery(ops, q)
      ensures r == Find(q.eq, List())
    {
      if index == null {
        r := VecMaps.GetIndexOfHashedRaw(entries, q.hash, q.eq, nightly);
        ScanFinds(ops, Slots(), q, r);
      } else {
        var j := FindInIndex(q);
        r := match j case None => None case Some(j) => Some(index.items[j].pos);
      }
    }

    /** Search the index: the bucket of the entry found, if any. */
    method FindInIndex(q: Query<K>) returns (j: Option<nat>)
      requires Valid() && LawfulQuery(ops, q) && index != null
      ensures j == None ==> Find(q.eq, List()) == None
      ensures j.Some? ==>
        && j.value < |index.items|
        && Find(q.eq, List()) == Some(index.items[j.value].pos)
        && index.items[j.value] == Buckets(Slots())[index.items[j.value].pos]
    {
      AgreesIsBijection(index.items, Slots());
      var keys := entries.aaa[..entries.len];
      var eq := (p: nat) requires p < |keys| => q.eq(keys[p].0);
      j := index.FindEntry(Promote(q.hash), eq);
      match j {
        case None => IndexMiss(ops, Slots(), index.items, q);
        case Some(j) => IndexHit(ops, Slots(), index.items, q, j);
      }
    }

    // ---- index maintenance ----

    /** The promoted hash of the entry at a position.  Nothing is promised of positions from the length on, so
        whoever is handed this function must not ask about them. */
    method Hasher() returns (h: nat --> u64)
      requires entries.Valid()
      ensures forall p: nat :: p < entries.len ==> h.requires(p) && h(p) == Promote(Slots()[p].1)
    {
      var hashes := entries.bbb[..entries.len];
      h := (p: nat) requires p < |hashes| => Promote(hashes[p]);
    }

    /** Fill an empty table with room for all entries.  Its hasher is never called. */
    method FillIndex(t: HashTable)
      requires entries.Valid() && t.Valid() && t.items == [] && t.growthLeft >= entries.len
      modifies t
      ensures t.Valid() && IndexAgrees(t.items, Slots())
      ensures t.growthLeft >= old(t.growthLeft) - entries.len
    {
      var unreachable: nat --> u64 := (p: nat) requires false => 0;
      var i := 0;
      while i < entries.len
        invariant i <= entries.len
        invariant t.Valid() && t.growthLeft >= old(t.growthLeft) - i
        invariant IndexAgrees(t.items, Slots()[..i])
      {
        ghost var items := t.items;
        t.InsertUnique(Promote(entries.bbb[i]), i, unreachable);
        AppendAgrees(items, t.items, Slots()[..i], Slots()[i]);
        assert Slots()[..i + 1] == Slots()[..i] + [Slots()[i]];
        i := i + 1;
      }
      assert Slots()[..i] == Slots();
    }

    method CreateIndex(capacity: nat)
      requires EntriesValid() && index == null && capacity >= entries.len
      modifies this`index
      ensures ContentValid() && index != null && fresh(index)
      ensures index.growthLeft >= capacity - entries.len
    {
      var t := new HashTable.WithCapacity(capacity);
      FillIndex(t);
      index := t;
    }

    /** Refill the index after entries were reordered or removed. */
    method RebuildIndex()
      requires EntriesValid()
      requires index != null ==> index.Valid() && |index.items| >= entries.len
      modifies index
      ensures index != null ==> ContentValid()
    {
      if index != null {
        index.Clear();
        FillIndex(index);
      }
    }

    /** Record newly allocated parts. */
    ghost method Own()
      requires ContentValid()
      modifies this`Repr
      ensures Valid() && List() == old(List())
      ensures Repr == old(Repr) + Footprint()
    {
      Repr := Repr + Footprint();
    }

    /** So many entries can be added without the index having to grow, or to be created. */
    ghost predicate HasRoom(additional: nat)
      requires entries.Valid()
      reads this, entries, entries.aaa, entries.bbb, index
    {
      if index == null then entries.len + additional <= Threshold() else index.growthLeft >= additional
    }

    /** Make room, in the columns and in the index, for so many more entries. */
    method Reserve(additional: nat)
      requires Valid()
      modifies Repr
      ensures Valid() && fresh(Repr - old(Repr))
      ensures List() == old(List())
      ensures entries.aaa.Length - entries.len >= additional && HasRoom(additional)
    {
      hide SlotsValid;
      entries.Reserve(additional);
      ReserveIndex(additional);
      Own();
    }

    /** The index half of `reserve`. */
    method ReserveIndex(additional: nat)
      requires ContentValid()
      modifies this`index, index
      ensures ContentValid() && (index == old(index) || fresh(index)) && HasRoom(additional)
    {
      if index != null {
        var h := Hasher();
        AgreesIsBijection(index.items, Slots());
        index.Reserve(additional, h);
      } else if entries.len + additional > Threshold() {
        CreateIndex(entries.len + additional);
      }
    }

    /** Drop the index if the map is small enough not to need it. */
    method MaybeDropIndex()
      requires Valid()
      modifies this`index
      ensures Valid() && List() == old(List())
      ensures index == null <==> old(index) == null || entries.len <= Threshold()
    {
      if entries.len <= Threshold() {
        index := null;
      }
    }

    // ---- insertion ----

    /** Append an entry whose key is known to be absent. */
    method InsertHashedUniqueUnchecked(hash: u32, key: K, val: V)
      requires Valid() && hash == ops.hash(key)
      requires Find(KeyQuery(ops, key).eq, List()) == None
      modifies Repr
      ensures Valid() && fresh(Repr - old(Repr))
      ensures List() == old(List()) + [(key, val)]
    {
      hide SlotsValid, IndexAgrees, Buckets;
      ghost var c := Slots();
      AppendIsValid(ops, c, key, val);
      hide Find, KeyQuery;
      var entryIndex := entries.len;
      entries.Push((key, val), hash);
      AddToIndex(hash, entryIndex, c);
      Own();
    }

    /** The index half of an insertion: the entries already hold `c` and one more. */
    method AddToIndex(hash: u32, entryIndex: nat, ghost c: seq<Slot<K, V>>)
      requires EntriesValid() && entryIndex == |c| == entries.len - 1
      requires Slots()[..|c|] == c && Slots()[|c|].1 == hash
      requires if index == null then |c| <= Threshold() else index.Valid() && IndexAgrees(index.items, c)
      modifies this`index, index
      ensures ContentValid() && (index == old(index) || fresh(index))
    {
      hide SlotsValid;
      assert Slots() == c + [Slots()[|c|]];
      if index != null {
        var h := Hasher();
        AgreesIsBijection(index.items, c);
        ghost var items := index.items;
        index.InsertUnique(Promote(hash), entryIndex, h);
        AppendAgrees(items, index.items, c, Slots()[|c|]);
      } else if entries.len == Threshold() + 1 {
        CreateIndex(entries.len);
      }
    }

    /** Insert or overwrite; the previous value is returned. */
    method InsertHashed(hash: u32, key: K, val: V) returns (r: Option<V>)
      requires Valid() && hash == ops.hash(key)
      modifies Repr
      ensures Valid() && fresh(Repr - old(Repr))
      ensures List() == Insert(ops, old(List()), key, val)
      ensures Puts(ops, old(List()), key, val, List()) && KeepsKeys(ops, old(List()), key, List())
      ensures r == Lookup(KeyQuery(ops, key).eq, old(List()))
    {
      InsertPuts(ops, List(), key, val);
      KeyQueryIsLawful(ops, key);
      var i := GetIndexOfHashedRaw(KeyQuery(ops, key));
      match i {
        case None =>
          InsertHashedUniqueUnchecked(hash, key, val);
          r := None;
        case Some(i) =>
          r := Some(entries.aaa[i].1);
          ReplaceValue(i, val);
      }
    }

    /** Write a value in place. */
    method ReplaceValue(i: nat, val: V)
      requires Valid() && i < entries.len
      modifies entries.aaa
      ensures Valid() && List() == old(List())[i := (old(List())[i].0, val)]
    {
      hide SlotsValid;
      ReplaceIsValid(ops, Slots(), i, val);
      entries.Set(i, (entries.aaa[i].0, val));
    }

    /** `entry(key)` and `or_insert`: the value under the key, inserting the default if the key is vacant. */
    method EntryOrInsert(hash: u32, key: K, default: V) returns (i: nat)
      requires Valid() && hash == ops.hash(key)
      modifies Repr
      ensures Valid() && fresh(Repr - old(Repr))
      ensures
        match Find(KeyQuery(ops, key).eq, old(List()))
        case Some(j) => i == j && List() == old(List())
        case None => i == |old(List())| && List() == old(List()) + [(key, default)]
    {
      KeyQueryIsLawful(ops, key);
      var found := GetIndexOfHashedRaw(KeyQuery(ops, key));
      match found {
        case Some(j) =>
          i := j;
        case None =>
          i := entries.len;
          InsertHashedUniqueUnchecked(hash, key, default);
      }
    }

    // ---- removal ----

    /** Remove the entry a key is equivalent to, closing the gap. */
    method ShiftRemoveHashedEntry(q: Query<K>) returns (r: Option<(K, V)>)
      requires Valid() && LawfulQuery(ops, q)
      modifies Repr
      ensures Valid() && Repr == old(Repr)
      ensures List() == Remove(q.eq, old(List()))
      ensures Forgets(ops, old(List()), q, List())
      ensures match Find(q.eq, old(List()))
        case None => r == None && List() == old(List())
        case Some(i) => r == Some(old(List())[i]) && List() == old(List())[..i] + old(List())[i + 1..]
    {
      RemoveForgets(ops, List(), q);
      hide SlotsValid, Forgets;
      if index == null {
        r := RemoveWithoutIndex(q);
      } else {
        var i := TakeFromIndex(q);
        match i {
          case None => r := None;
          case Some(i) =>
            var kv := RemoveSlot(i);
            r := Some(kv);
        }
      }
    }

    method RemoveWithoutIndex(q: Query<K>) returns (r: Option<(K, V)>)
      requires Valid() && LawfulQuery(ops, q) && index == null
      modifies entries, entries.aaa, entries.bbb
      ensures Valid() && Repr == old(Repr)
      ensures List() == Remove(q.eq, old(List()))
      ensures r == LookupEntry(q.eq, old(List()))
    {
      var i := VecMaps.GetIndexOfHashedRaw(entries, q.hash, q.eq, nightly);
      ScanFinds(ops, Slots(), q, i);
      match i {
        case None => r := None;
        case Some(i) =>
          var kv := RemoveSlot(i);
          r := Some(kv);
      }
    }

    /** The entry half of a removal. */
    method RemoveSlot(i: nat) returns (r: (K, V))
      requires EntriesValid() && i < entries.len
      modifies entries, entries.aaa, entries.bbb
      ensures EntriesValid() && entries.aaa == old(entries.aaa) && entries.bbb == old(entries.bbb)
      ensures Slots() == RemoveAt(old(Slots()), i) && List() == RemoveAt(old(List()), i)
      ensures r == old(List())[i] && entries.len == old(entries.len) - 1
    {
      hide SlotsValid;
      ghost var c := Slots();
      RemoveAtIsValid(ops, c, i);
      var slot := entries.Remove(i);
      assert Slots() == RemoveAt(c, i);
      r := slot.0;
    }

    /** The index half of a removal by key: the bucket goes, later positions move down. */
    method TakeFromIndex(q: Query<K>) returns (r: Option<nat>)
      requires Valid() && LawfulQuery(ops, q) && index != null
      modifies index
      ensures r == Find(q.eq, List()) && index.Valid()
      ensures r == None ==> Valid()
      ensures r.Some? ==> IndexAgrees(index.items, RemoveAt(Slots(), r.value))
    {
      var j := FindInIndex(q);
      if j == None {
        return None;
      }
      var i := ShiftOut(j.value);
      r := Some(i);
    }

    /** Remove a bucket and shift the positions above it. */
    method ShiftOut(j: nat) returns (i: nat)
      requires entries.Valid() && index != null && index.Valid() && IndexAgrees(index.items, Slots())
      requires j < |index.items| && index.items[j].pos < entries.len
      requires index.items[j] == Buckets(Slots())[index.items[j].pos]
      modifies index
      ensures i == old(index.items[j].pos)
      ensures index.Valid() && IndexAgrees(index.items, RemoveAt(Slots(), i))
    {
      ghost var c := Slots();
      i := index.RemoveEntry(j);
      if i == entries.len - 1 {
        ShiftLast(index.items, c);
      } else {
        ShiftAgrees(index.items, c, i);
        MapIndexPositions(Shift(i));
      }
    }

    /** `for bucket in index.iter_mut()`: rewrite every position. */
    method MapIndexPositions(f: nat -> nat)
      requires index != null && index.Valid()
      modifies index
      ensures index.Valid() && index.items == MapPos(f, old(index.items))
    {
      var j := 0;
      while j < |index.items|
        invariant j <= |index.items| == |old(index.items)|
        invariant index.Valid()
        invariant forall k :: 0 <= k < j ==> index.items[k] == MapPos(f, old(index.items))[k]
        invariant forall k :: j <= k < |index.items| ==> index.items[k] == old(index.items)[k]
      {
        index.SetPos(j, f(index.items[j].pos));
        j := j + 1;
      }
    }

    /** Remove the entry at a position. */
    method ShiftRemoveIndexHashed(i: nat) returns (r: Option<(K, V)>)
      requires Valid()
      modifies Repr
      ensures Valid() && Repr == old(Repr)
      ensures if i < |old(List())|
        then r == Some(old(List())[i]) && List() == old(List())[..i] + old(List())[i + 1..]
        else r == None && List() == old(List())
    {
      hide SlotsValid;
      if i >= entries.len {
        return None;
      }
      if index != null {
        DropFromIndex(i);
      }
      var kv := RemoveSlot(i);
      r := Some(kv);
    }

    /** The index half of a removal by position. */
    method DropFromIndex(i: nat)
      requires entries.Valid() && index != null && index.Valid() && IndexAgrees(index.items, Slots())
      requires i < entries.len
      modifies index
      ensures index.Valid() && IndexAgrees(index.items, RemoveAt(Slots(), i))
    {
      RetainAgrees(index.items, Slots(), i);
      index.Retain(ShiftOrDrop(i));
    }

    /** Remove the last entry. */
    method Pop() returns (r: Option<(K, V)>)
      requires Valid()
      modifies Repr
      ensures Valid() && Repr == old(Repr)
      ensures if |old(List())| == 0 then r == None && List() == []
              else r == Some(old(List())[|old(List())| - 1]) && List() == old(List())[..|old(List())| - 1]
    {
      hide SlotsValid;
      if entries.len == 0 {
        return None;
      }
      ghost var c := Slots();
      RemoveAtIsValid(ops, c, |c| - 1);
      var slot := entries.Pop();
      assert c == Slots() + [slot] && Slots() == RemoveAt(c, |c| - 1);
      assert List() == old(List())[..|old(List())| - 1];
      if index != null {
        PopFromIndex(slot);
      }
      r := Some(slot.0);
    }

    /** The index half of `pop`: exactly the bucket of the popped position goes. */
    method PopFromIndex(slot: Slot<K, V>)
      requires entries.Valid() && index != null && index.Valid()
      requires IndexAgrees(index.items, Slots() + [slot])
      modifies index
      ensures index.Valid() && IndexAgrees(index.items, Slots())
    {
      ghost var c := Slots() + [slot];
      var n := entries.len;
      AgreesIsBijection(index.items, c);
      var j := index.FindEntry(Promote(slot.1), (p: nat) => p == n);
      assert Bucket(Promote(slot.1), n) in index.items;
      ghost var items := index.items;
      assert items[j.value] in items && items[j.value] == Bucket(Promote(slot.1), n);
      var removed := index.RemoveEntry(j.value);
      PopAgrees(items, index.items, Slots(), slot);
    }

    /** Drop every entry.  If one of the drops panics the index is not reached, and the columns keep counting
        entries that are gone. */
    method Clear(drop: (K, V) -> bool) returns (completed: bool)
      requires Valid()
      modifies Repr
      ensures Repr == old(Repr)
      ensures completed <==> DropsCleanly(drop, old(List()))
      ensures completed ==> Valid() && List() == []
      ensures !completed ==> entries.gone && entries.len == |old(List())| && index == old(index)
    {
      ghost var c := Slots();
      var dropEntry := DropOf((kv: (K, V)) => drop(kv.0, kv.1), (hash: u32) => false);
      assert DropPanics(dropEntry, c) <==> !DropsCleanly(drop, Entries(c));
      completed := entries.Clear(dropEntry);
      if completed && index != null {
        index.Clear();
      }
    }

    // ---- reordering ----

    method Reverse()
      requires Valid()
      modifies Repr
      ensures Valid() && Repr == old(Repr)
      ensures List() == Reversed(old(List()))
    {
      hide SlotsValid, IndexAgrees;
      ghost var c := Slots();
      ReverseSlots();
      if index != null {
        MirrorIndex(c);
      }
    }

    /** The index half of a reversal: the entries, once `c`, are already reversed. */
    method MirrorIndex(ghost c: seq<Slot<K, V>>)
      requires entries.Valid() && index != null && index.Valid() && IndexAgrees(index.items, c)
      requires Slots() == Reversed(c)
      modifies index
      ensures index.Valid() && IndexAgrees(index.items, Slots())
    {
      var len := entries.len;
      MirrorAgrees(index.items, c);
      MapIndexPositions(Mirror(len));
    }

    /** The entry half of a reversal. */
    method ReverseSlots()
      requires EntriesValid()
      modifies entries.aaa, entries.bbb
      ensures EntriesValid()
      ensures Slots() == Reversed(old(Slots())) && List() == Reversed(old(List()))
    {
      hide SlotsValid;
      ghost var c := Slots();
      ReversedIsValid(ops, c);
      entries.Reverse();
    }

    /** Sort by key, unless already sorted.  The guard rebuilds the index even if a comparison panics. */
    method SortKeys(cmp: Comparator<K>) returns (completed: bool)
      requires Valid()
      modifies Repr
      ensures Valid() && fresh(Repr - old(Repr))
      ensures KeysSorted(ops, cmp, old(List()), completed, List())
    {
      hide SlotsSorted, SlotsValid, IndexAgrees;
      assert VecMaps.SlotKeys(Slots()) == Keys(List());
      var sorted := VecMaps.IsSortedByKey(entries, cmp);
      match sorted {
        case None =>
          completed := false;
        case Some(true) =>
          completed := true;
        case Some(false) =>
          completed := SortAndRebuild(cmp);
      }
    }

    method SortAndRebuild(cmp: Comparator<K>) returns (completed: bool)
      requires Valid()
      modifies Repr
      ensures Valid() && fresh(Repr - old(Repr))
      ensures SlotsSorted(ops, cmp, old(List()), completed, List())
    {
      hide SlotsValid;
      if index != null {
        AgreesIsBijection(index.items, Slots());
      }
      completed := SortSlots(cmp);
      RebuildIndex();
      Own();
    }

    /** The entry half of sorting. */
    method SortSlots(cmp: Comparator<K>) returns (completed: bool)
      requires EntriesValid()
      modifies entries, entries.aaa, entries.bbb
      ensures EntriesValid() && fresh(entries.Repr() - old(entries.Repr()))
      ensures entries.len <= old(entries.len)
      ensures SlotsSorted(ops, cmp, old(List()), completed, List())
    {
      ghost var c := Slots();
      completed := entries.SortBy(ByKey(cmp));
      if multiset(Slots()) == multiset(c) {
        ReorderedIsValid(ops, c, Slots());
      }
      SortOutcomeByKey(ops, cmp, c, completed, Slots());
    }

    /** Keep what the predicate accepts.  The guards leave a well-formed map wherever a panic stops it. */
    method Retain(f: MapClosure<K, V>) returns (completed: bool)
      requires Valid()
      modifies Repr
      ensures Valid() && Repr == old(Repr)
      ensures List() == Retained(OnPairs(f), old(List()))
      ensures completed <==> StopAt(OnPairs(f), old(List()), 0) == |old(List())|
      ensures exists n, ks :: RetainLeaves(f, old(List()), n, ks, List()) && (completed <==> n == |old(List())|)
    {
      hide SlotsValid, RetainLeaves, Retained, StopAt;
      ghost var _, _ := RetainedLeaves(f, List());
      ghost var c := Slots();
      var originalLen := entries.len;
      completed := RetainSlots(f);
      if entries.len < originalLen {
        if index != null {
          AgreesIsBijection(index.items, c);
        }
        RebuildIndex();
      }
    }

    /** The entry half of `retain`. */
    method RetainSlots(f: MapClosure<K, V>) returns (completed: bool)
      requires EntriesValid()
      modifies entries, entries.aaa, entries.bbb
      ensures EntriesValid() && entries.aaa == old(entries.aaa) && entries.bbb == old(entries.bbb)
      ensures List() == Retained(OnPairs(f), old(List()))
      ensures entries.len <= old(entries.len)
      ensures entries.len == old(entries.len) ==> Buckets(Slots()) == old(Buckets(Slots()))
      ensures completed <==> StopAt(OnPairs(f), old(List()), 0) == |old(List())|
    {
      hide SlotsValid;
      RetainedIsValid(ops, f, Slots());
      StopAtSame(f, Slots(), 0);
      completed := entries.Retain(OnSlots(f));
    }
  }
}
