/** A hash map that shows no order: its equality and its order-independent hash
    (starlark_map/src/unordered_map.rs). */
module UnorderedMaps {
  import opened Integers
  import opened Options
  import opened Sequences
  import opened HashValue
  import opened AssocLists
  import opened MapEquality

  /** Sum of the entries' hashes, wrapping at 64 bits. */
  function WrappingSum<K, V>(h: (K, V) -> u64, es: AssocList<K, V>): u64 {
    if es == [] then 0 else (h(es[0].0, es[0].1) + WrappingSum(h, es[1..])) % 0x1_0000_0000_0000_0000
  }

  lemma WrappingAdd(x: int, y: int, z: int)
    ensures (x + (y + z) % 0x1_0000_0000_0000_0000) % 0x1_0000_0000_0000_0000 == (x + y + z) % 0x1_0000_0000_0000_0000
  {
  }

  lemma WrappingRegroup(x: int, y: int, z: int)
    ensures (x + (y + z) % 0x1_0000_0000_0000_0000) % 0x1_0000_0000_0000_0000 ==
      ((x + y) % 0x1_0000_0000_0000_0000 + z) % 0x1_0000_0000_0000_0000
  {
    WrappingAdd(x, y, z);
    WrappingAdd(z, x, y);
  }

  lemma WrappingSwap(x: int, y: int, z: int)
    ensures (x + (y + z) % 0x1_0000_0000_0000_0000) % 0x1_0000_0000_0000_0000 ==
      (y + (x + z) % 0x1_0000_0000_0000_0000) % 0x1_0000_0000_0000_0000
  {
    WrappingAdd(x, y, z);
    WrappingAdd(y, x, z);
  }

  lemma SumCons<K, V>(h: (K, V) -> u64, e: (K, V), es: AssocList<K, V>)
    ensures WrappingSum(h, [e] + es) == (h(e.0, e.1) + WrappingSum(h, es)) % 0x1_0000_0000_0000_0000
  {
    assert ([e] + es)[1..] == es;
  }

  lemma SumNothing<K, V>(h: (K, V) -> u64)
    ensures WrappingSum(h, []) == 0
  {
  }

  lemma {:induction false} SumConcat<K, V>(h: (K, V) -> u64, s: AssocList<K, V>, t: AssocList<K, V>)
    ensures WrappingSum(h, s + t) == (WrappingSum(h, s) + WrappingSum(h, t)) % 0x1_0000_0000_0000_0000
    decreases |s|
  {
    hide WrappingSum;
    if s == [] {
      SumNothing(h);
      assert s + t == t;
    } else {
      var e, s' := HeadAndTail(s);
      SumConcat(h, s', t);
      SumCons(h, e, s');
      SumCons(h, e, s' + t);
      Associate([e], s', t);
      WrappingRegroup(h(e.0, e.1), WrappingSum(h, s'), WrappingSum(h, t));
    }
  }

  lemma SumSnoc<K, V>(h: (K, V) -> u64, es: AssocList<K, V>, e: (K, V))
    ensures WrappingSum(h, es + [e]) == (WrappingSum(h, es) + h(e.0, e.1)) % 0x1_0000_0000_0000_0000
  {
    SumConcat(h, es, [e]);
    SumCons(h, e, []);
    SumNothing(h);
    hide WrappingSum;
    assert [e] + [] == [e];
  }

  /** Taking an entry out of the middle takes its hash out of the sum. */
  lemma SumPick<K, V>(h: (K, V) -> u64, s: AssocList<K, V>, k: nat)
    requires k < |s|
    ensures WrappingSum(h, s) == (h(s[k].0, s[k].1) + WrappingSum(h, RemoveAt(s, k))) % 0x1_0000_0000_0000_0000
  {
    hide WrappingSum, RemoveAt;
    var a, b := SplitAround(s, k);
    SumParts(h, s, a, s[k], b);
  }

  lemma SumParts<K, V>(h: (K, V) -> u64, s: AssocList<K, V>, a: AssocList<K, V>, e: (K, V), b: AssocList<K, V>)
    requires s == a + ([e] + b)
    ensures WrappingSum(h, s) == (h(e.0, e.1) + WrappingSum(h, a + b)) % 0x1_0000_0000_0000_0000
  {
    hide WrappingSum;
    SumConcat(h, a, [e] + b);
    SumCons(h, e, b);
    SumConcat(h, a, b);
    WrappingSwap(WrappingSum(h, a), h(e.0, e.1), WrappingSum(h, b));
  }

  /** The entry hash respects equality of keys and of values. */
  ghost predicate HashRespects<K(!new), V(!new)>(ops: KeyOps<K>, veq: (V, V) -> bool, h: (K, V) -> u64) {
    forall k1, k2, v1, v2 :: ops.eq(k1, k2) && veq(v1, v2) ==> h(k1, v1) == h(k2, v2)
  }

  /** Equal maps have equal sums, whatever order their tables yield the entries in. */
  lemma {:induction false} SameMappingSameSum<K(!new), V(!new)>(
      ops: KeyOps<K>, veq: (V, V) -> bool, h: (K, V) -> u64, a: AssocList<K, V>, b: AssocList<K, V>)
    requires Lawful(ops) && HashRespects(ops, veq, h) && Unique(ops, a) && Unique(ops, b)
    requires |a| == |b| && Included(ops, veq, a, b)
    ensures WrappingSum(h, a) == WrappingSum(h, b)
    decreases |a|
  {
    hide RemoveAt;
    if a != [] {
      assert IncludedAt(ops, veq, a, b, 0);
      var j := Find(KeyQuery(ops, a[0].0).eq, b).value;
      SumPick(h, b, j);
      UniqueRemoveAt(ops, b, j);
      IncludedTail(ops, veq, a, b, j);
      SameMappingSameSum(ops, veq, h, a[1..], RemoveAt(b, j));
      assert ops.eq(a[0].0, b[j].0);
    }
  }

  /** With the first entry of `a` taken out of both, the rest is still included. */
  lemma IncludedTail<K(!new), V>(ops: KeyOps<K>, veq: (V, V) -> bool, a: AssocList<K, V>, b: AssocList<K, V>, j: nat)
    requires Lawful(ops) && Unique(ops, a) && Unique(ops, b) && Included(ops, veq, a, b) && |a| > 0
    requires Find(KeyQuery(ops, a[0].0).eq, b) == Some(j)
    ensures Unique(ops, a[1..]) && Included(ops, veq, a[1..], RemoveAt(b, j))
  {
    UniqueRemoveAt(ops, b, j);
    forall i | 0 <= i < |a[1..]| ensures IncludedAt(ops, veq, a[1..], RemoveAt(b, j), i) {
      StillIncluded(ops, veq, a, b, j, i + 1);
    }
  }

  lemma StillIncluded<K(!new), V>(ops: KeyOps<K>, veq: (V, V) -> bool, a: AssocList<K, V>, b: AssocList<K, V>,
                                  j: nat, i: nat)
    requires j < |b| && 0 < i < |a|
    requires Lawful(ops) && Unique(ops, a) && Unique(ops, RemoveAt(b, j))
    requires Find(KeyQuery(ops, a[0].0).eq, b) == Some(j) && IncludedAt(ops, veq, a, b, i)
    ensures IncludedAt(ops, veq, a, RemoveAt(b, j), i)
  {
    DistinctMatches(ops, a, b, 0, i);
    KeyQueryIsLawful(ops, a[i].0);
    hide Unique, RemoveAt, Lawful, LawfulQuery;
    LookupElsewhere(ops, b, j, KeyQuery(ops, a[i].0));
  }

  /** Taking out one entry changes nothing for keys found at another. */
  lemma LookupElsewhere<K(!new), V>(ops: KeyOps<K>, b: AssocList<K, V>, j: nat, q: Query<K>)
    requires j < |b| && Unique(ops, RemoveAt(b, j)) && LawfulQuery(ops, q)
    requires Find(q.eq, b).Some? && Find(q.eq, b) != Some(j)
    ensures Lookup(q.eq, RemoveAt(b, j)) == Lookup(q.eq, b)
  {
    hide Unique, RemoveAt, LawfulQuery;
    var p := Find(q.eq, b).value;
    var p' := if p < j then p else p - 1;
    RemoveAtIndex(b, j, p');
    AtMostOneMatch(ops, RemoveAt(b, j), q, p');
  }

  lemma ReorderedLookup<K(!new), V>(ops: KeyOps<K>, a: AssocList<K, V>, b: AssocList<K, V>, k: K)
    requires Lawful(ops) && Unique(ops, a) && multiset(a) == multiset(b)
    ensures Lookup(KeyQuery(ops, k).eq, a) == Lookup(KeyQuery(ops, k).eq, b)
  {
    ReorderedIsSame(ops, a, b);
    assert Agree(Identical(), Lookup(KeyQuery(ops, k).eq, a), Lookup(KeyQuery(ops, k).eq, b));
  }

  /** Inserting means the same wherever the table puts the entry. */
  lemma InsertedAnywhere<K(!new), V>(ops: KeyOps<K>, es: AssocList<K, V>, k: K, v: V, table: AssocList<K, V>)
    requires Lawful(ops) && Unique(ops, AssocLists.Insert(ops, es, k, v))
    requires multiset(table) == multiset(AssocLists.Insert(ops, es, k, v))
    ensures Puts(ops, es, k, v, table)
  {
    var r := AssocLists.Insert(ops, es, k, v);
    InsertPuts(ops, es, k, v);
    hide Unique, Lawful, Lookup, KeyQuery, AssocLists.Insert;
    forall other ensures Lookup(KeyQuery(ops, other).eq, table) == Lookup(KeyQuery(ops, other).eq, r) {
      ReorderedLookup(ops, r, table, other);
    }
  }

  class UnorderedMap<K(!new), V> {
    const ops: KeyOps<K>
    /** The table's entries, in the order it happens to yield them. */
    var table: AssocList<K, V>

    ghost predicate Valid()
      reads this
    {
      Lawful(ops) && Unique(ops, table)
    }

    constructor (ops: KeyOps<K>)
      requires Lawful(ops)
      ensures Valid() && table == [] && this.ops == ops
    {
      this.ops := ops;
      table := [];
    }

    /** The table's lookup by hash and key: some matching entry, if there is one. */
    method FindEntry(k: K) returns (r: Option<nat>)
      requires Valid()
      ensures r == Find(KeyQuery(ops, k).eq, table)
    {
      KeyQueryIsLawful(ops, k);
      var i := 0;
      while i < |table|
        invariant i <= |table|
        invariant forall j :: 0 <= j < i ==> !KeyQuery(ops, k).eq(table[j].0)
      {
        if ops.hash(table[i].0) == ops.hash(k) && ops.eq(k, table[i].0) {
          return Some(i);
        }
        i := i + 1;
      }
      return None;
    }

    /** Insert or overwrite.  Where a new entry lands in the table is unspecified. */
    method Insert(k: K, v: V) returns (r: Option<V>)
      requires Valid()
      modifies this
      ensures Valid() && multiset(table) == multiset(AssocLists.Insert(ops, old(table), k, v))
      ensures Puts(ops, old(table), k, v, table)
      ensures r == Lookup(KeyQuery(ops, k).eq, old(table))
    {
      hide Puts;
      ghost var es := table;
      var i := FindEntry(k);
      match i {
        case None =>
          UniqueAppend(ops, table, k, v);
          r := None;
          var slot :| 0 <= slot <= |table|;
          ghost var appended := table + [(k, v)];
          assert table == table[..slot] + table[slot..];
          table := table[..slot] + [(k, v)] + table[slot..];
          assert multiset(table) == multiset(appended);
          UniqueReordered(ops, appended, table);
        case Some(i) =>
          r := Some(table[i].1);
          table := table[i := (table[i].0, v)];
      }
      InsertedAnywhere(ops, es, k, v, table);
    }

    method Remove(k: K) returns (r: Option<V>)
      requires Valid()
      modifies this
      ensures Valid() && multiset(table) == multiset(AssocLists.Remove(KeyQuery(ops, k).eq, old(table)))
      ensures Forgets(ops, old(table), KeyQuery(ops, k), table)
      ensures r == Lookup(KeyQuery(ops, k).eq, old(table))
    {
      KeyQueryIsLawful(ops, k);
      RemoveForgets(ops, table, KeyQuery(ops, k));
      hide Forgets;
      var i := FindEntry(k);
      match i {
        case None => r := None;
        case Some(i) =>
          r := Some(table[i].1);
          UniqueRemoveAt(ops, table, i);
          table := RemoveAt(table, i);
      }
    }

    /** `Hash`: the length, then the wrapping sum of the entries' own hashes. */
    method Hash(h: (K, V) -> u64) returns (len: nat, sum: u64)
      ensures len == |table| && sum == WrappingSum(h, table)
    {
      hide WrappingSum;
      SumNothing(h);
      len, sum := |table|, 0;
      var i := 0;
      while i < |table|
        invariant i <= |table| && sum == WrappingSum(h, table[..i])
      {
        UpTo(table, i);
        SumSnoc(h, table[..i], table[i]);
        sum := (sum + h(table[i].0, table[i].1)) % 0x1_0000_0000_0000_0000;
        i := i + 1;
      }
      assert table[..i] == table;
    }
  }

  /** `PartialEq for UnorderedMap`, which has the values of `other` on the left. */
  method UnorderedMapEq<K(!new), V>(self: UnorderedMap<K, V>, other: UnorderedMap<K, V>, veq: (V, V) -> bool)
    returns (r: bool)
    requires self.Valid() && other.Valid() && self.ops == other.ops
    ensures r <==> SameMapping(self.ops, veq, other.table, self.table)
  {
    ghost var x, y := self.table, other.table;
    EqMeaning(self.ops, Flipped(veq), x, y);
    FlippedSame(self.ops, veq, x, y);
    if |self.table| != |other.table| {
      return false;
    }
    var i := 0;
    while i < |self.table|
      invariant i <= |self.table|
      invariant forall j :: 0 <= j < i ==> IncludedAt(self.ops, Flipped(veq), x, y, j)
    {
      var j := other.FindEntry(self.table[i].0);
      if j == None || !veq(other.table[j.value].1, self.table[i].1) {
        assert !IncludedAt(self.ops, Flipped(veq), x, y, i);
        return false;
      }
      i := i + 1;
    }
    return true;
  }

  /** Maps that compare equal hash equally. */
  lemma EqualMapsHashEqually<K(!new), V(!new)>(ops: KeyOps<K>, veq: (V, V) -> bool, h: (K, V) -> u64,
                                               a: AssocList<K, V>, b: AssocList<K, V>)
    requires Lawful(ops) && HashRespects(ops, veq, h) && Unique(ops, a) && Unique(ops, b)
    requires SameMapping(ops, veq, a, b)
    ensures |a| == |b| && WrappingSum(h, a) == WrappingSum(h, b)
  {
    EqMeaning(ops, veq, a, b);
    SameMappingSameSum(ops, veq, h, a, b);
  }

  /** In particular the sum does not see the order of the table. */
  lemma {:induction false} HashIgnoresOrder<K, V>(h: (K, V) -> u64, a: AssocList<K, V>, b: AssocList<K, V>)
    requires multiset(a) == multiset(b)
    ensures |a| == |b| && WrappingSum(h, a) == WrappingSum(h, b)
    decreases |a|
  {
    assert |a| == |multiset(a)| == |multiset(b)| == |b|;
    if a != [] {
      var k := Extract(a, b);
      HashIgnoresOrder(h, a[1..], RemoveAt(b, k));
      SumPick(h, b, k);
    }
  }
}
