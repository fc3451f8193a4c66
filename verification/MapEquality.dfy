/** Equality of maps: the one-way test of `SmallMap::eq`, ordered equality, and the canonical form
    of `SortedMap` (starlark_map/src/small_map.rs, starlark_map/src/sorted_map.rs). */
module MapEquality {
  import opened Options
  import opened HashValue
  import opened Sequences
  import opened Sorting
  import opened AssocLists
  import opened KeyOrder
  import opened SmallMaps

  /** Both absent, or values that are equal as their type compares them. */
  predicate Agree<V>(veq: (V, V) -> bool, x: Option<V>, y: Option<V>) {
    match (x, y)
    case (None, None) => true
    case (Some(v), Some(w)) => veq(v, w)
    case _ => false
  }

  ghost function Identical<V>(): (V, V) -> bool {
    (v: V, w: V) => v == w
  }

  function Flipped<V>(veq: (V, V) -> bool): (V, V) -> bool {
    (v: V, w: V) => veq(w, v)
  }

  /** The two lists are the same mapping from keys to values, whatever their order.  Nothing is assumed of `veq`,
      which compares values of `a` with values of `b`: it need not even be reflexive. */
  ghost predicate SameMapping<K(!new), V>(ops: KeyOps<K>, veq: (V, V) -> bool,
                                          a: AssocList<K, V>, b: AssocList<K, V>) {
    forall k :: Agree(veq, Lookup(KeyQuery(ops, k).eq, a), Lookup(KeyQuery(ops, k).eq, b))
  }

  lemma FlippedSame<K(!new), V>(ops: KeyOps<K>, veq: (V, V) -> bool, a: AssocList<K, V>, b: AssocList<K, V>)
    ensures SameMapping(ops, Flipped(veq), a, b) <==> SameMapping(ops, veq, b, a)
  {
    assert forall x, y :: Agree(Flipped(veq), x, y) <==> Agree(veq, y, x);
  }

  /** Every entry of `a` is found, with an equal value, in `b`. */
  ghost predicate Included<K, V>(ops: KeyOps<K>, veq: (V, V) -> bool, a: AssocList<K, V>, b: AssocList<K, V>) {
    forall i :: 0 <= i < |a| ==> IncludedAt(ops, veq, a, b, i)
  }

  predicate IncludedAt<K, V>(ops: KeyOps<K>, veq: (V, V) -> bool, a: AssocList<K, V>, b: AssocList<K, V>, i: nat)
    requires i < |a|
  {
    Agree(veq, Some(a[i].1), Lookup(KeyQuery(ops, a[i].0).eq, b))
  }

  /** Every key of `a` is found in `b`. */
  ghost predicate KeysFound<K, V>(ops: KeyOps<K>, a: AssocList<K, V>, b: AssocList<K, V>) {
    forall i :: 0 <= i < |a| ==> Find(KeyQuery(ops, a[i].0).eq, b).Some?
  }

  ghost predicate AllDifferent(js: seq<nat>) {
    forall i, k :: 0 <= i < k < |js| ==> js[i] != js[k]
  }

  /** More than `n` values below `n`: two of them collide. */
  lemma {:induction false} Collide(js: seq<nat>, n: nat) returns (i: nat, k: nat)
    requires |js| > n && forall i :: 0 <= i < |js| ==> js[i] < n
    ensures i < k < |js| && js[i] == js[k]
    decreases n
  {
    var m := |js| - 1;
    if js[m] in js[..m] {
      i :| 0 <= i < m && js[i] == js[m];
      k := m;
    } else if n - 1 in js[..m] {
      // the value at m takes the place of n - 1, which is then free
      var l :| 0 <= l < m && js[l] == n - 1;
      var rest := js[..m][l := js[m]];
      if n - 1 in js[..m][..l] {
        var i' :| 0 <= i' < l && js[i'] == n - 1;
        i, k := i', l;
      } else if n - 1 in js[..m][l + 1..] {
        var k' :| l < k' < m && js[k'] == n - 1;
        i, k := l, k';
      } else {
        forall j | 0 <= j < m ensures rest[j] < n - 1 {
          if j < l { assert js[..m][..l][j] == js[j]; }
          if j > l { assert js[..m][l + 1..][j - l - 1] == js[j]; }
        }
        i, k := Collide(rest, n - 1);
        assert js[m] !in js[..m] ==> i != l && k != l;
      }
    } else {
      i, k := Collide(js[..m], n - 1);
    }
  }

  /** `n` distinct positions below `n` are all the positions below `n`. */
  lemma Pigeonhole(js: seq<nat>, n: nat)
    requires |js| == n && forall i :: 0 <= i < n ==> js[i] < n
    requires AllDifferent(js)
    ensures forall p :: 0 <= p < n ==> p in js
  {
    forall p | 0 <= p < n ensures p in js {
      var i, k := Collide([p] + js, n);
    }
  }

  /** Different entries are found in different places. */
  lemma DistinctMatches<K(!new), V>(ops: KeyOps<K>, a: AssocList<K, V>, b: AssocList<K, V>, i: nat, l: nat)
    requires Lawful(ops) && Unique(ops, a) && i < l < |a|
    requires Find(KeyQuery(ops, a[i].0).eq, b).Some? && Find(KeyQuery(ops, a[l].0).eq, b).Some?
    ensures Find(KeyQuery(ops, a[i].0).eq, b) != Find(KeyQuery(ops, a[l].0).eq, b)
  {
    var p := Find(KeyQuery(ops, a[i].0).eq, b).value;
    var q := Find(KeyQuery(ops, a[l].0).eq, b).value;
    assert ops.eq(a[i].0, b[p].0);
    assert ops.eq(a[l].0, b[q].0) && ops.eq(b[q].0, a[l].0);
    assert !ops.eq(a[i].0, a[l].0);
  }

  /** If all keys of `a` are found in a `b` of the same length, the two have the same keys. */
  lemma KeysPairUp<K(!new), V>(ops: KeyOps<K>, a: AssocList<K, V>, b: AssocList<K, V>, k: K)
    requires Lawful(ops) && Unique(ops, a) && Unique(ops, b) && |a| == |b| && KeysFound(ops, a, b)
    ensures match Find(KeyQuery(ops, k).eq, b)
      case None => Find(KeyQuery(ops, k).eq, a) == None
      case Some(p) =>
        && Find(KeyQuery(ops, k).eq, a).Some?
        && Find(KeyQuery(ops, a[Find(KeyQuery(ops, k).eq, a).value].0).eq, b) == Some(p)
  {
    var eq, n := KeyQuery(ops, k).eq, |a|;
    var js := seq(n, i requires 0 <= i < n => Find(KeyQuery(ops, a[i].0).eq, b).value);
    forall i, l | 0 <= i < l < n ensures js[i] != js[l] {
      DistinctMatches(ops, a, b, i, l);
    }
    Pigeonhole(js, n);
    KeyQueryIsLawful(ops, k);
    match Find(eq, b) {
      case Some(p) =>
        assert p in js;
        var i :| 0 <= i < n && js[i] == p;
        assert ops.eq(a[i].0, b[p].0) && ops.eq(k, b[p].0) && ops.eq(b[p].0, a[i].0);
        AtMostOneMatch(ops, a, KeyQuery(ops, k), i);
      case None =>
        forall i | 0 <= i < n ensures !eq(a[i].0) {
          var p := js[i];
          assert ops.eq(a[i].0, b[p].0) && !eq(b[p].0);
        }
    }
  }

  lemma IncludedIsFound<K, V>(ops: KeyOps<K>, veq: (V, V) -> bool, a: AssocList<K, V>, b: AssocList<K, V>)
    requires Included(ops, veq, a, b)
    ensures KeysFound(ops, a, b)
  {
    forall i | 0 <= i < |a| ensures Find(KeyQuery(ops, a[i].0).eq, b).Some? {
      assert IncludedAt(ops, veq, a, b, i);
    }
  }

  /** Among maps of equal size, finding every entry of one in the other is finding the same mapping. */
  lemma IncludedIsSame<K(!new), V>(ops: KeyOps<K>, veq: (V, V) -> bool, a: AssocList<K, V>, b: AssocList<K, V>)
    requires Lawful(ops) && Unique(ops, a) && Unique(ops, b)
    requires |a| == |b| && Included(ops, veq, a, b)
    ensures SameMapping(ops, veq, a, b)
  {
    IncludedIsFound(ops, veq, a, b);
    hide KeysFound, Unique, Lawful;
    forall k ensures Agree(veq, Lookup(KeyQuery(ops, k).eq, a), Lookup(KeyQuery(ops, k).eq, b)) {
      KeysPairUp(ops, a, b, k);
      if i: nat :| Find(KeyQuery(ops, k).eq, a) == Some(i) {
        assert IncludedAt(ops, veq, a, b, i);
      }
    }
  }

  lemma SameIsIncluded<K(!new), V>(ops: KeyOps<K>, veq: (V, V) -> bool, a: AssocList<K, V>, b: AssocList<K, V>)
    requires Lawful(ops) && Unique(ops, a) && Unique(ops, b) && SameMapping(ops, veq, a, b)
    ensures Included(ops, veq, a, b) && KeysFound(ops, a, b) && KeysFound(ops, b, a)
  {
    forall i | 0 <= i < |a| ensures IncludedAt(ops, veq, a, b, i) {
      KeyQueryIsLawful(ops, a[i].0);
      assert ops.eq(a[i].0, a[i].0);
      AtMostOneMatch(ops, a, KeyQuery(ops, a[i].0), i);
    }
    forall i | 0 <= i < |a| ensures Find(KeyQuery(ops, a[i].0).eq, b).Some? {
      assert IncludedAt(ops, veq, a, b, i);
    }
    forall i | 0 <= i < |b| ensures Find(KeyQuery(ops, b[i].0).eq, a).Some? {
      KeyQueryIsLawful(ops, b[i].0);
      assert ops.eq(b[i].0, b[i].0);
      AtMostOneMatch(ops, b, KeyQuery(ops, b[i].0), i);
      assert Agree(veq, Lookup(KeyQuery(ops, b[i].0).eq, a), Lookup(KeyQuery(ops, b[i].0).eq, b));
    }
  }

  /** The same mapping has the same number of entries. */
  lemma FoundIsNotLonger<K(!new), V>(ops: KeyOps<K>, a: AssocList<K, V>, b: AssocList<K, V>)
    requires Lawful(ops) && Unique(ops, a) && KeysFound(ops, a, b)
    ensures |a| <= |b|
  {
    var js := seq(|a|, i requires 0 <= i < |a| => Find(KeyQuery(ops, a[i].0).eq, b).value);
    forall i, l | 0 <= i < l < |a| ensures js[i] != js[l] {
      DistinctMatches(ops, a, b, i, l);
    }
    DistinctFit(js, |b|);
  }

  lemma DistinctFit(js: seq<nat>, n: nat)
    requires forall i :: 0 <= i < |js| ==> js[i] < n
    requires AllDifferent(js)
    ensures |js| <= n
  {
    if |js| > n {
      var i, k := Collide(js, n);
    }
  }

  /** Equal length and one-way look-up, exactly: same mapping. */
  lemma EqMeaning<K(!new), V>(ops: KeyOps<K>, veq: (V, V) -> bool, a: AssocList<K, V>, b: AssocList<K, V>)
    requires Lawful(ops) && Unique(ops, a) && Unique(ops, b)
    ensures |a| == |b| && Included(ops, veq, a, b) <==> SameMapping(ops, veq, a, b)
  {
    if |a| == |b| && Included(ops, veq, a, b) {
      IncludedIsSame(ops, veq, a, b);
    }
    if SameMapping(ops, veq, a, b) {
      SameIsIncluded(ops, veq, a, b);
      FoundIsNotLonger(ops, a, b);
      FoundIsNotLonger(ops, b, a);
    }
  }

  /** `get_hashed(k) == Some(v)` */
  method HasEntry<K(!new, 0), V(0)>(m: SmallMap<K, V>, veq: (V, V) -> bool, k: K, v: V) returns (r: bool)
    requires m.Valid()
    ensures r <==> Agree(veq, Lookup(KeyQuery(m.ops, k).eq, m.List()), Some(v))
  {
    KeyQueryIsLawful(m.ops, k);
    var j := m.GetIndexOfHashedRaw(KeyQuery(m.ops, k));
    r := j.Some? && veq(m.entries.aaa[j.value].1, v);
  }

  /** `PartialEq for SmallMap`, which has the values of `other` on the left. */
  method SmallMapEq<K(!new, 0), V(0)>(self: SmallMap<K, V>, other: SmallMap<K, V>, veq: (V, V) -> bool)
    returns (r: bool)
    requires self.Valid() && other.Valid() && self.ops == other.ops
    ensures r <==> SameMapping(self.ops, veq, other.List(), self.List())
  {
    ghost var x, y := self.List(), other.List();
    EqMeaning(self.ops, Flipped(veq), x, y);
    FlippedSame(self.ops, veq, x, y);
    hide SmallMap.Valid, SameMapping, Unique, Lookup;
    if self.entries.len != other.entries.len {
      return false;
    }
    var i := 0;
    while i < self.entries.len
      invariant i <= self.entries.len
      invariant forall j :: 0 <= j < i ==> IncludedAt(self.ops, Flipped(veq), x, y, j)
    {
      var kv := self.entries.aaa[i];
      assert kv == x[i];
      var found := HasEntry(other, veq, kv.0, kv.1);
      assert found <==> IncludedAt(self.ops, Flipped(veq), x, y, i);
      if !found {
        return false;
      }
      i := i + 1;
    }
    return true;
  }

  /** The same entries in the same order. */
  ghost predicate EqualInOrder<K, V>(ops: KeyOps<K>, veq: (V, V) -> bool, a: AssocList<K, V>, b: AssocList<K, V>) {
    |a| == |b| && forall i :: 0 <= i < |a| ==> ops.eq(a[i].0, b[i].0) && veq(a[i].1, b[i].1)
  }

  /** `VecMap::eq_ordered`: hash columns first, then keys and values.  The hashes never change the answer. */
  method EqOrdered<K(!new, 0), V(0)>(a: SmallMap<K, V>, b: SmallMap<K, V>, veq: (V, V) -> bool) returns (r: bool)
    requires a.Valid() && b.Valid() && a.ops == b.ops
    ensures r <==> EqualInOrder(a.ops, veq, a.List(), b.List())
  {
    var x, y := a.entries, b.entries;
    if x.bbb[..x.len] != y.bbb[..y.len] {
      if x.len == y.len {
        var i :| 0 <= i < x.len && x.bbb[..x.len][i] != y.bbb[..y.len][i];
        assert a.Slots()[i].1 != b.Slots()[i].1;
        assert !a.ops.eq(a.List()[i].0, b.List()[i].0);
      }
      return false;
    }
    assert x.len == y.len by { assert |x.bbb[..x.len]| == |y.bbb[..y.len]|; }
    var i := 0;
    while i < x.len
      invariant i <= x.len
      invariant forall j :: 0 <= j < i ==> a.ops.eq(a.List()[j].0, b.List()[j].0) && veq(a.List()[j].1, b.List()[j].1)
    {
      assert a.List()[i] == x.aaa[i] && b.List()[i] == y.aaa[i];
      if !a.ops.eq(x.aaa[i].0, y.aaa[i].0) || !veq(x.aaa[i].1, y.aaa[i].1) {
        return false;
      }
      i := i + 1;
    }
    return true;
  }

  // ---- sorted maps ----

  lemma EqualInOrderIsSame<K(!new), V>(ops: KeyOps<K>, veq: (V, V) -> bool, a: AssocList<K, V>, b: AssocList<K, V>)
    requires Lawful(ops) && Unique(ops, a) && Unique(ops, b) && EqualInOrder(ops, veq, a, b)
    ensures SameMapping(ops, veq, a, b)
  {
    forall i | 0 <= i < |a| ensures IncludedAt(ops, veq, a, b, i) {
      KeyQueryIsLawful(ops, a[i].0);
      AtMostOneMatch(ops, b, KeyQuery(ops, a[i].0), i);
    }
    IncludedIsSame(ops, veq, a, b);
  }

  /** Position by position, two sorted lists with the same keys agree on them. */
  lemma {:induction false} SortedAgree<K(!new), V>(ops: KeyOps<K>, cmp: Comparator<K>,
                                                   a: AssocList<K, V>, b: AssocList<K, V>, n: nat)
    requires Lawful(ops) && LawfulOrder(ops, cmp) && Unique(ops, a) && Unique(ops, b)
    requires SortedByKey(cmp, a) && SortedByKey(cmp, b)
    requires |a| == |b| && KeysFound(ops, a, b) && KeysFound(ops, b, a) && n <= |a|
    ensures forall i :: 0 <= i < n ==> ops.eq(a[i].0, b[i].0)
  {
    hide Unique, KeysFound, SortedByKey, Lawful, LawfulOrder;
    if n > 0 {
      SortedAgree(ops, cmp, a, b, n - 1);
      var i := n - 1;
      var p := Partner(ops, a, b, i);
      forall j | 0 <= j < i ensures ops.eq(b[j].0, a[j].0) {
        Symmetric(ops, a[j].0, b[j].0);
      }
      var q := Partner(ops, b, a, i);
      // a[i] ~ b[p] and b[i] ~ a[q], with p, q >= i; so a[i] <= a[q] ~ b[i] <= b[p] ~ a[i]
      InOrder(ops, cmp, a, i, q);
      InOrder(ops, cmp, b, i, p);
      OrderSandwich(ops, cmp, a[i].0, a[q].0, b[i].0, b[p].0);
    }
  }

  lemma Symmetric<K(!new)>(ops: KeyOps<K>, a: K, b: K)
    requires Lawful(ops) && ops.eq(a, b)
    ensures ops.eq(b, a)
  {
  }

  lemma InOrder<K(!new), V>(ops: KeyOps<K>, cmp: Comparator<K>, es: AssocList<K, V>, i: nat, j: nat)
    requires Lawful(ops) && LawfulOrder(ops, cmp) && SortedByKey(cmp, es) && i <= j < |es|
    ensures cmp(es[i].0, es[j].0) != Greater
  {
    assert ops.eq(es[i].0, es[i].0);
  }

  /** The place in `b` of the key at `i` in `a`: not among the places already matched. */
  lemma Partner<K(!new), V>(ops: KeyOps<K>, a: AssocList<K, V>, b: AssocList<K, V>, i: nat) returns (p: nat)
    requires Lawful(ops) && Unique(ops, a) && |a| == |b| && KeysFound(ops, a, b) && i < |a|
    requires forall j :: 0 <= j < i ==> ops.eq(a[j].0, b[j].0)
    ensures i <= p < |b| && ops.eq(a[i].0, b[p].0)
  {
    p := Find(KeyQuery(ops, a[i].0).eq, b).value;
    assert ops.eq(a[i].0, b[p].0);
    forall j | 0 <= j < i ensures !ops.eq(a[i].0, b[j].0) {
      assert ops.eq(b[j].0, a[j].0);
      assert !ops.eq(a[i].0, a[j].0);
    }
  }

  lemma OrderSandwich<K(!new)>(ops: KeyOps<K>, cmp: Comparator<K>, ai: K, aq: K, bi: K, bp: K)
    requires Lawful(ops) && LawfulOrder(ops, cmp)
    requires ops.eq(ai, bp) && ops.eq(bi, aq) && cmp(ai, aq) != Greater && cmp(bi, bp) != Greater
    ensures ops.eq(ai, bi)
  {
    assert cmp(aq, bi) != Greater by { assert ops.eq(aq, bi); }
    assert cmp(bp, ai) != Greater by { assert ops.eq(bp, ai); }
    assert cmp(ai, bi) != Greater;
    assert cmp(bi, ai) != Greater;
  }

  lemma ValuesAgree<K(!new), V>(ops: KeyOps<K>, veq: (V, V) -> bool, a: AssocList<K, V>, b: AssocList<K, V>, i: nat)
    requires Lawful(ops) && Unique(ops, b) && Included(ops, veq, a, b)
    requires i < |a| && i < |b| && ops.eq(a[i].0, b[i].0)
    ensures veq(a[i].1, b[i].1)
  {
    KeyQueryIsLawful(ops, a[i].0);
    AtMostOneMatch(ops, b, KeyQuery(ops, a[i].0), i);
    assert IncludedAt(ops, veq, a, b, i);
  }

  /** Sorting gives a canonical form: two sorted maps are equal in order exactly when they are the same mapping. */
  lemma SortedIsCanonical<K(!new), V>(ops: KeyOps<K>, veq: (V, V) -> bool, cmp: Comparator<K>,
                                      a: AssocList<K, V>, b: AssocList<K, V>)
    requires Lawful(ops) && LawfulOrder(ops, cmp) && Unique(ops, a) && Unique(ops, b)
    requires SortedByKey(cmp, a) && SortedByKey(cmp, b)
    ensures EqualInOrder(ops, veq, a, b) <==> SameMapping(ops, veq, a, b)
  {
    hide Unique, Lawful, LawfulOrder, SortedByKey, KeysFound, Included, SameMapping;
    if EqualInOrder(ops, veq, a, b) {
      EqualInOrderIsSame(ops, veq, a, b);
    }
    if SameMapping(ops, veq, a, b) {
      SameIsIncluded(ops, veq, a, b);
      FoundIsNotLonger(ops, a, b);
      FoundIsNotLonger(ops, b, a);
      SortedAgree(ops, cmp, a, b, |a|);
      forall i | 0 <= i < |a| ensures veq(a[i].1, b[i].1) {
        ValuesAgree(ops, veq, a, b, i);
      }
    }
  }

  /** Reordering does not change the mapping. */
  lemma ReorderedIsSame<K(!new), V>(ops: KeyOps<K>, a: AssocList<K, V>, b: AssocList<K, V>)
    requires Lawful(ops) && Unique(ops, a) && multiset(a) == multiset(b)
    ensures Unique(ops, b) && SameMapping(ops, Identical(), a, b)
  {
    UniqueReordered(ops, a, b);
    assert |a| == |multiset(a)| == |multiset(b)| == |b|;
    forall i | 0 <= i < |a| ensures IncludedAt(ops, Identical(), a, b, i) {
      assert a[i] in multiset(b);
      var j :| 0 <= j < |b| && b[j] == a[i];
      KeyQueryIsLawful(ops, a[i].0);
      AtMostOneMatch(ops, b, KeyQuery(ops, a[i].0), j);
    }
    IncludedIsSame(ops, Identical(), a, b);
  }

  /** What inserting a list of pairs one after the other leaves. */
  function InsertAll<K, V>(ops: KeyOps<K>, es: AssocList<K, V>, pairs: seq<(K, V)>): AssocList<K, V>
    decreases |pairs|
  {
    if pairs == [] then es else InsertAll(ops, Insert(ops, es, pairs[0].0, pairs[0].1), pairs[1..])
  }

  /** The last pair with a key gives its value, and what was there is kept for all other keys; stored keys stay. */
  lemma {:induction false} LastPairWins<K(!new), V>(ops: KeyOps<K>, es: AssocList<K, V>, pairs: seq<(K, V)>, k: K)
    requires Lawful(ops)
    ensures (forall j :: 0 <= j < |pairs| ==> !ops.eq(pairs[j].0, k)) ==>
      Lookup(KeyQuery(ops, k).eq, InsertAll(ops, es, pairs)) == Lookup(KeyQuery(ops, k).eq, es)
    ensures forall j :: 0 <= j < |pairs| && LastWith(ops, pairs, k, j) ==>
      Lookup(KeyQuery(ops, k).eq, InsertAll(ops, es, pairs)) == Some(pairs[j].1)
    ensures Keys(es) <= Keys(InsertAll(ops, es, pairs))
    decreases |pairs|
  {
    hide Lookup, KeyQuery, Insert, Lawful;
    if pairs != [] {
      var p, rest := HeadAndTail(pairs);
      var es' := Insert(ops, es, p.0, p.1);
      InsertPuts(ops, es, p.0, p.1);
      assert Lookup(KeyQuery(ops, k).eq, es') == if ops.eq(p.0, k) then Some(p.1) else Lookup(KeyQuery(ops, k).eq, es);
      assert Keys(es) <= Keys(es');
      hide Puts, KeepsKeys;
      LastPairWins(ops, es', rest, k);
      LastWithRest(ops, pairs, p, rest, k);
    }
  }

  lemma LastWithRest<K, V>(ops: KeyOps<K>, pairs: seq<(K, V)>, p: (K, V), rest: seq<(K, V)>, k: K)
    requires pairs == [p] + rest
    ensures (forall j :: 0 <= j < |pairs| ==> !ops.eq(pairs[j].0, k)) <==>
      !ops.eq(p.0, k) && forall j :: 0 <= j < |rest| ==> !ops.eq(rest[j].0, k)
    ensures LastWith(ops, pairs, k, 0) <==> ops.eq(p.0, k) && forall j :: 0 <= j < |rest| ==> !ops.eq(rest[j].0, k)
    ensures forall j :: 0 < j < |pairs| && LastWith(ops, pairs, k, j) ==>
      pairs[j] == rest[j - 1] && LastWith(ops, rest, k, j - 1)
  {
    assert pairs[0] == p && |pairs| == 1 + |rest|;
    assert forall j :: 0 < j < |pairs| ==> pairs[j] == rest[j - 1];
    assert forall j :: 0 <= j < |rest| ==> rest[j] == pairs[j + 1];
  }

  /** The `j`th pair is the last whose key is equivalent to `k`. */
  predicate LastWith<K, V>(ops: KeyOps<K>, pairs: seq<(K, V)>, k: K, j: nat)
    requires j < |pairs|
  {
    ops.eq(pairs[j].0, k) && forall i :: j < i < |pairs| ==> !ops.eq(pairs[i].0, k)
  }

  /** `Extend for SmallMap`: insert every pair. */
  method Extend<K(!new, 0), V(0)>(m: SmallMap<K, V>, pairs: seq<(K, V)>)
    requires m.Valid()
    modifies m.Repr
    ensures m.Valid() && fresh(m.Repr - old(m.Repr))
    ensures m.List() == InsertAll(m.ops, old(m.List()), pairs)
    decreases |pairs|
  {
    if pairs == [] {
      return;
    }
    var previous := m.InsertHashed(m.ops.hash(pairs[0].0), pairs[0].0, pairs[0].1);
    Extend(m, pairs[1..]);
  }

  /** `FromIterator for SmallMap`; `hint` is the lower bound of the iterator's size hint. */
  method SmallMapFromIter<K(!new, 0), V(0)>(ops: KeyOps<K>, pairs: seq<(K, V)>, hint: nat, nightly: bool)
    returns (m: SmallMap<K, V>)
    requires Lawful(ops)
    ensures m.Valid() && fresh(m.Repr) && m.ops == ops
    ensures m.List() == InsertAll(ops, [], pairs)
  {
    m := new SmallMap<K, V>.WithCapacity(ops, nightly, hint, 4);
    Extend(m, pairs);
  }

  /** A `SmallMap` whose entries are kept sorted: built by sorting, never reordered after. */
  class SortedMap<K(!new, 0), V(0)> {
    const inner: SmallMap<K, V>
    const cmp: Comparator<K>

    ghost predicate Valid()
      reads this, inner, inner.entries, inner.entries.aaa, inner.entries.bbb, inner.index
    {
      inner.Valid() && LawfulOrder(inner.ops, cmp) && SortedByKey(cmp, inner.List())
    }

    /** `From<OrderedMap>` and `From<SmallMap>`: take the map over and sort it. */
    constructor From(inner: SmallMap<K, V>, cmp: Comparator<K>)
      requires inner.Valid() && LawfulOrder(inner.ops, cmp)
      modifies inner.Repr
      ensures Valid() && this.inner == inner && this.cmp == cmp
      ensures fresh(inner.Repr - old(inner.Repr))
      ensures multiset(inner.List()) == multiset(old(inner.List()))
      ensures SameMapping(inner.ops, Identical(), old(inner.List()), inner.List())
    {
      ghost var before := inner.List();
      var completed := inner.SortKeys(cmp);
      this.inner := inner;
      this.cmp := cmp;
      new;
      hide KeysSorted, SmallMap.Valid, Unique;
      LawfulOrderSorts(inner.ops, cmp, before, completed, inner.List());
      ReorderedIsSame(inner.ops, before, inner.List());
    }
  }

  /** `FromIterator for SortedMap`: build the map, then sort it. */
  method SortedMapFromIter<K(!new, 0), V(0)>(ops: KeyOps<K>, cmp: Comparator<K>, pairs: seq<(K, V)>,
                                             hint: nat, nightly: bool)
    returns (r: SortedMap<K, V>)
    requires Lawful(ops) && LawfulOrder(ops, cmp)
    ensures r.Valid() && r.cmp == cmp && r.inner.ops == ops
    ensures SameMapping(ops, Identical(), InsertAll(ops, [], pairs), r.inner.List())
  {
    var m := SmallMapFromIter(ops, pairs, hint, nightly);
    r := new SortedMap<K, V>.From(m, cmp);
  }

  /** The derived equality of `SortedMap` compares entries in order; it decides whether the mappings are the same. */
  method SortedMapEq<K(!new, 0), V(0)>(a: SortedMap<K, V>, b: SortedMap<K, V>, veq: (V, V) -> bool)
    returns (r: bool)
    requires a.Valid() && b.Valid() && a.inner.ops == b.inner.ops && a.cmp == b.cmp
    ensures r <==> SameMapping(a.inner.ops, veq, a.inner.List(), b.inner.List())
  {
    SortedIsCanonical(a.inner.ops, veq, a.cmp, a.inner.List(), b.inner.List());
    r := EqOrdered(a.inner, b.inner, veq);
  }
}
