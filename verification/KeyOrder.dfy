/** Sorting an entry list by key (starlark_map/src/small_map.rs `sort_keys`), and what makes the
    result canonical. */
module KeyOrder {
  import opened Sequences
  import opened HashValue
  import opened Sorting
  import opened Vec2Storage
  import opened VecMaps
  import opened AssocLists

  /** What `Ord` demands of keys: a total order that agrees with equality. */
  ghost predicate LawfulOrder<K(!new)>(ops: KeyOps<K>, cmp: Comparator<K>) {
    && (forall a, b :: cmp(a, b) != Panics)
    && (forall a, b :: cmp(a, b) == Less <==> cmp(b, a) == Greater)
    && (forall a, b :: cmp(a, b) == Equal <==> ops.eq(a, b))
    && (forall a, b, c :: cmp(a, b) != Greater && cmp(b, c) != Greater ==> cmp(a, c) != Greater)
  }

  ghost predicate SortedByKey<K, V>(cmp: Comparator<K>, es: AssocList<K, V>) {
    forall i, j :: 0 <= i < j < |es| ==> cmp(es[i].0, es[j].0) != Greater
  }

  /** How `sort_keys` may end.  The check whether the entries are sorted already comes first: if it finds them
      in order, or panics, nothing changes.  If it finds a descent the sort decides, which may stop only when
      some comparison panics, and must if some key cannot be compared at all; stopped, it leaves a
      rearrangement of a short list and nothing of a long one. */
  ghost predicate KeysSorted<K(!new), V>(ops: KeyOps<K>, cmp: Comparator<K>, es: AssocList<K, V>,
                                         completed: bool, es': AssocList<K, V>) {
    var keys := Keys(es);
    var k := FirstDisorder(cmp, keys, 1);
    if k >= |keys| then
      completed && es' == es
    else if cmp(keys[k - 1], keys[k]) == Panics then
      !completed && es' == es
    else
      SlotsSorted(ops, cmp, es, completed, es')
  }

  ghost predicate SlotsSorted<K(!new), V>(ops: KeyOps<K>, cmp: Comparator<K>, es: AssocList<K, V>,
                                          completed: bool, es': AssocList<K, V>) {
    && (if completed || |es| <= MAX_INSERTION then multiset(es') == multiset(es) else es' == [])
    && (!completed ==> Panicking(cmp, Keys(es)))
    && (Poisoned(cmp, Keys(es)) ==> !completed)
    && (LawfulOrder(ops, cmp) ==> completed && SortedByKey(cmp, es'))
  }

  /** Sorting whole slots by their keys, told by the keys alone. */
  lemma SortOutcomeByKey<K(!new), V>(ops: KeyOps<K>, cmp: Comparator<K>, c: seq<Slot<K, V>>,
                                     completed: bool, d: seq<Slot<K, V>>)
    requires SortOutcome(ByKey(cmp), c, completed, d)
    requires if completed || |c| <= MAX_INSERTION then multiset(d) == multiset(c) else d == []
    ensures SlotsSorted(ops, cmp, Entries(c), completed, Entries(d))
  {
    var order: Comparator<Slot<K, V>> := ByKey(cmp);
    var keys := Keys(Entries(c));
    if multiset(d) == multiset(c) {
      EntriesMultiset(c, d);
    }
    if !completed {
      var x, y :| x in c && y in c && order(x, y) == Panics;
      var i: nat :| i < |c| && c[i] == x;
      var j: nat :| j < |c| && c[j] == y;
      assert keys[i] in keys && keys[j] in keys && cmp(keys[i], keys[j]) == Panics;
    }
    if Poisoned(cmp, keys) {
      var k: nat :| PoisonedAt(cmp, keys, k);
      assert PoisonedAt(order, c, k);
    }
    if LawfulOrder(ops, cmp) {
      ByKeyIsTotal(ops, cmp, Elements(c));
      SortedEntries(cmp, d);
    }
  }

  /** Under a lawful order `sort_keys` completes with the sorted rearrangement. */
  lemma LawfulOrderSorts<K(!new), V>(ops: KeyOps<K>, cmp: Comparator<K>, es: AssocList<K, V>,
                                     completed: bool, es': AssocList<K, V>)
    requires LawfulOrder(ops, cmp) && KeysSorted(ops, cmp, es, completed, es')
    ensures completed && SortedByKey(cmp, es') && multiset(es') == multiset(es)
  {
    var keys := Keys(es);
    if FirstDisorder(cmp, keys, 1) >= |keys| {
      forall i | 0 < i < |es| ensures cmp(es[i - 1].0, es[i].0) != Greater {
        assert cmp(keys[i - 1], keys[i]) in {Less, Equal};
      }
      NeighboursSorted(ops, cmp, es);
    }
  }

  /** The sort, unlike the check before it, is reached: the first neighbours out of order are a descent. */
  predicate Descends<K, V>(cmp: Comparator<K>, es: AssocList<K, V>) {
    var keys := Keys(es);
    var k := FirstDisorder(cmp, keys, 1);
    k < |keys| && cmp(keys[k - 1], keys[k]) == Greater
  }

  /** No entry is lost from a short list, nor where no comparison panics, nor where the check already panics. */
  lemma EntriesKept<K(!new), V>(ops: KeyOps<K>, cmp: Comparator<K>, es: AssocList<K, V>,
                                completed: bool, es': AssocList<K, V>)
    requires KeysSorted(ops, cmp, es, completed, es')
    requires |es| <= MAX_INSERTION || !Descends(cmp, es) || !Panicking(cmp, Keys(es))
    ensures multiset(es') == multiset(es)
    ensures !Panicking(cmp, Keys(es)) ==> completed
  {
  }

  /** Every entry of a long list is lost if it descends before a panic and some key cannot be compared. */
  lemma EntriesLost<K(!new), V>(ops: KeyOps<K>, cmp: Comparator<K>, es: AssocList<K, V>,
                                completed: bool, es': AssocList<K, V>)
    requires KeysSorted(ops, cmp, es, completed, es')
    requires |es| > MAX_INSERTION && Descends(cmp, es) && Poisoned(cmp, Keys(es))
    ensures !completed && es' == []
  {
  }

  /** Where it depends on single keys whether a comparison panics, the entries are lost exactly if the list is
      long, descends before a panic, and holds such a key. */
  lemma EntriesLostExactly<K(!new), V>(ops: KeyOps<K>, cmp: Comparator<K>, bad: K -> bool, es: AssocList<K, V>,
                                       completed: bool, es': AssocList<K, V>)
    requires forall a, b :: cmp(a, b) == Panics <==> bad(a) || bad(b)
    requires KeysSorted(ops, cmp, es, completed, es') && es != []
    ensures es' == [] <==>
      |es| > MAX_INSERTION && Descends(cmp, es) && exists i :: 0 <= i < |es| && bad(es[i].0)
    ensures es' != [] ==> multiset(es') == multiset(es)
  {
    var keys := Keys(es);
    if i: nat :| i < |es| && bad(es[i].0) {
      assert bad(keys[i]) && PoisonedAt(cmp, keys, i);
    }
    if x, y :| x in keys && y in keys && cmp(x, y) == Panics {
      var j: nat :| j < |keys| && keys[j] == if bad(x) then x else y;
      assert bad(es[j].0);
    }
    assert es[0] in multiset(es);
  }

  lemma ByKeyIsTotal<K(!new), V>(ops: KeyOps<K>, cmp: Comparator<K>, s: set<Slot<K, V>>)
    requires LawfulOrder(ops, cmp)
    ensures TotalOrder(ByKey(cmp), s)
  {
    var order: Comparator<Slot<K, V>> := ByKey(cmp);
    forall a, b | a in s && b in s
      ensures order(a, b) != Panics && (order(a, b) == Less <==> order(b, a) == Greater)
    {
      assert order(a, b) == cmp(a.0.0, b.0.0) && order(b, a) == cmp(b.0.0, a.0.0);
    }
    forall a, b, c | a in s && b in s && c in s
      ensures order(a, b) != Greater && order(b, c) != Greater ==> order(a, c) != Greater
    {
      assert order(a, b) == cmp(a.0.0, b.0.0) && order(b, c) == cmp(b.0.0, c.0.0) && order(a, c) == cmp(a.0.0, c.0.0);
    }
  }

  lemma {:induction false} EntriesMultiset<K, V>(s: seq<Slot<K, V>>, t: seq<Slot<K, V>>)
    requires multiset(s) == multiset(t)
    ensures multiset(Entries(s)) == multiset(Entries(t))
    decreases |s|
  {
    if s == [] {
      assert |multiset(t)| == 0;
    } else {
      var k := Extract(s, t);
      EntriesMultiset(s[1..], RemoveAt(t, k));
      RemoveAtMultiset(Entries(s), 0);
      RemoveAtMultiset(Entries(t), k);
      assert RemoveAt(Entries(s), 0) == Entries(s[1..]);
      assert RemoveAt(Entries(t), k) == Entries(RemoveAt(t, k));
    }
  }

  /** Reordering slots keeps them well formed. */
  lemma ReorderedIsValid<K(!new), V>(ops: KeyOps<K>, s: seq<Slot<K, V>>, t: seq<Slot<K, V>>)
    requires SlotsValid(ops, s) && multiset(s) == multiset(t)
    ensures SlotsValid(ops, t) && multiset(Entries(t)) == multiset(Entries(s)) && |t| == |s|
  {
    EntriesMultiset(s, t);
    UniqueReordered(ops, Entries(s), Entries(t));
    assert |multiset(s)| == |multiset(t)|;
    forall i | 0 <= i < |t| ensures t[i].1 == ops.hash(t[i].0.0) {
      assert t[i] in multiset(s);
    }
  }

  lemma SortedEntries<K, V>(cmp: Comparator<K>, c: seq<Slot<K, V>>)
    requires SortedBy(ByKey(cmp), c)
    ensures SortedByKey(cmp, Entries(c))
  {
  }

  /** Neighbours in order make the whole list sorted. */
  lemma {:induction false} NeighboursSorted<K(!new), V>(ops: KeyOps<K>, cmp: Comparator<K>, es: AssocList<K, V>)
    requires LawfulOrder(ops, cmp)
    requires forall i :: 0 < i < |es| ==> cmp(es[i - 1].0, es[i].0) != Greater
    ensures SortedByKey(cmp, es)
    decreases |es|
  {
    if |es| > 1 {
      var es' := es[..|es| - 1];
      NeighboursSorted(ops, cmp, es');
      forall i, j | 0 <= i < j < |es| ensures cmp(es[i].0, es[j].0) != Greater {
        if j < |es| - 1 {
          assert es'[i] == es[i] && es'[j] == es[j];
        } else if i < j - 1 {
          assert cmp(es'[i].0, es'[j - 1].0) != Greater;
          assert cmp(es[j - 1].0, es[j].0) != Greater;
        }
      }
    }
  }

  /** Sorting is canonical: a list with unique keys has exactly one sorted order. */
  lemma {:induction false} SortedOrderIsUnique<K(!new), V>(ops: KeyOps<K>, cmp: Comparator<K>,
                                                           s: AssocList<K, V>, t: AssocList<K, V>)
    requires Lawful(ops) && LawfulOrder(ops, cmp) && Unique(ops, s)
    requires multiset(s) == multiset(t) && SortedByKey(cmp, s) && SortedByKey(cmp, t)
    ensures s == t
    decreases |s|
  {
    if s == [] {
      assert |multiset(t)| == 0;
    } else {
      var s', t' := SortedStep(ops, cmp, s, t);
      SortedOrderIsUnique(ops, cmp, s', t');
    }
  }

  /** Two sorted orders start alike, and go on with sorted orders of the same rest. */
  lemma SortedStep<K(!new), V>(ops: KeyOps<K>, cmp: Comparator<K>, s: AssocList<K, V>, t: AssocList<K, V>)
    returns (s': AssocList<K, V>, t': AssocList<K, V>)
    requires Lawful(ops) && LawfulOrder(ops, cmp) && Unique(ops, s) && |s| > 0
    requires multiset(s) == multiset(t) && SortedByKey(cmp, s) && SortedByKey(cmp, t)
    ensures |t| > 0 && s == [s[0]] + s' && t == [s[0]] + t'
    ensures multiset(s') == multiset(t') && Unique(ops, s')
    ensures SortedByKey(cmp, s') && SortedByKey(cmp, t')
  {
    var k := Extract(s, t);
    UniqueReordered(ops, s, t);
    HeadComesFirst(ops, cmp, s, t, k);
    s', t' := s[1..], t[1..];
    assert RemoveAt(t, 0) == t';
    SortedTail(ops, cmp, s);
    SortedTail(ops, cmp, t);
  }

  /** The first entry of one sorted order is the first of every other. */
  lemma HeadComesFirst<K(!new), V>(ops: KeyOps<K>, cmp: Comparator<K>, s: AssocList<K, V>, t: AssocList<K, V>, k: nat)
    requires Lawful(ops) && LawfulOrder(ops, cmp) && Unique(ops, t)
    requires multiset(s) == multiset(t) && SortedByKey(cmp, s) && SortedByKey(cmp, t)
    requires k < |t| && |s| > 0 && t[k] == s[0]
    ensures k == 0
  {
    assert t[0] in multiset(s);
    var j :| 0 <= j < |s| && s[j] == t[0];
    assert ops.eq(s[0].0, s[0].0) ==> cmp(s[0].0, s[0].0) == Equal;
    assert cmp(s[0].0, t[0].0) != Greater;
    assert cmp(t[0].0, t[k].0) == Equal;
  }

  lemma SortedTail<K, V>(ops: KeyOps<K>, cmp: Comparator<K>, s: AssocList<K, V>)
    requires |s| > 0 && Unique(ops, s) && SortedByKey(cmp, s)
    ensures Unique(ops, s[1..]) && SortedByKey(cmp, s[1..])
  {
  }
}
