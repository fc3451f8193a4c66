/** The specification of `SmallMap`: a list of key-value pairs in insertion order. */
module AssocLists {
  import opened Integers
  import opened Options
  import opened Sequences
  import opened HashValue
  import opened HashTables
  import opened VecMaps
  import opened MapIndex

  type AssocList<K, V> = seq<(K, V)>

  /** No two entries have equivalent keys. */
  ghost predicate Unique<K, V>(ops: KeyOps<K>, es: AssocList<K, V>) {
    forall i, j :: 0 <= i < |es| && 0 <= j < |es| && i != j ==> !ops.eq(es[i].0, es[j].0)
  }

  /** A lookup key: its hash, and which stored keys it is equivalent to. */
  datatype Query<!K> = Query(hash: u32, eq: K -> bool)

  /** What the `Equivalent` and `Hash` traits promise of a lookup key. */
  ghost predicate LawfulQuery<K(!new)>(ops: KeyOps<K>, q: Query<K>) {
    && (forall a, b :: q.eq(a) && q.eq(b) ==> ops.eq(a, b))
    && (forall a :: q.eq(a) ==> ops.hash(a) == q.hash)
  }

  /** Looking a key up by itself. */
  function KeyQuery<K>(ops: KeyOps<K>, k: K): Query<K> {
    Query(ops.hash(k), x => ops.eq(k, x))
  }

  lemma KeyQueryIsLawful<K(!new)>(ops: KeyOps<K>, k: K)
    requires Lawful(ops)
    ensures LawfulQuery(ops, KeyQuery(ops, k))
  {
    forall a, b | ops.eq(k, a) && ops.eq(k, b) ensures ops.eq(a, b) {
      assert ops.eq(a, k);
    }
  }

  /** The place of the first entry whose key `eq` accepts. */
  function Find<K, V>(eq: K -> bool, es: AssocList<K, V>): (r: Option<nat>)
    ensures r.Some? ==> r.value < |es| && eq(es[r.value].0) && forall i :: 0 <= i < r.value ==> !eq(es[i].0)
    ensures r.None? ==> forall i :: 0 <= i < |es| ==> !eq(es[i].0)
    decreases |es|
  {
    if es == [] then None
    else if eq(es[0].0) then Some(0)
    else match Find(eq, es[1..]) case None => None case Some(i) => Some(i + 1)
  }

  /** The entries of a slot list, without the hashes. */
  function Entries<K, V>(c: seq<Slot<K, V>>): (es: AssocList<K, V>)
    ensures |es| == |c|
    ensures forall i :: 0 <= i < |c| ==> es[i] == c[i].0
  {
    seq(|c|, i requires 0 <= i < |c| => c[i].0)
  }

  /** The keys in order; of a set, its elements. */
  function Keys<K, V>(es: AssocList<K, V>): (r: seq<K>)
    ensures |r| == |es| && forall i :: 0 <= i < |es| ==> r[i] == es[i].0
  {
    seq(|es|, i requires 0 <= i < |es| => es[i].0)
  }

  /** Every slot carries the hash of its key. */
  ghost predicate HashesAgree<K, V>(ops: KeyOps<K>, c: seq<Slot<K, V>>) {
    forall i :: 0 <= i < |c| ==> c[i].1 == ops.hash(c[i].0.0)
  }

  /** A well-formed slot list: lawful keys, right hashes, no key twice. */
  ghost predicate SlotsValid<K(!new), V>(ops: KeyOps<K>, c: seq<Slot<K, V>>) {
    Lawful(ops) && HashesAgree(ops, c) && Unique(ops, Entries(c))
  }

  /** Among unique keys a lawful lookup key has at most one match. */
  lemma AtMostOneMatch<K(!new), V>(ops: KeyOps<K>, es: AssocList<K, V>, q: Query<K>, i: nat)
    requires LawfulQuery(ops, q) && Unique(ops, es)
    requires i < |es| && q.eq(es[i].0)
    ensures Find(q.eq, es) == Some(i)
  {
  }

  /** The hash-column scan finds what a search by key finds. */
  lemma ScanFinds<K(!new), V>(ops: KeyOps<K>, c: seq<Slot<K, V>>, q: Query<K>, r: Option<nat>)
    requires LawfulQuery(ops, q) && HashesAgree(ops, c) && FirstMatch(c, q.hash, q.eq, r)
    ensures r == Find(q.eq, Entries(c))
  {
    var es := Entries(c);
    assert forall i :: 0 <= i < |c| ==> (Matches(c[i], q.hash, q.eq) <==> q.eq(es[i].0));
  }

  /** A hit in an agreeing index is the entry a search by key finds. */
  lemma IndexHit<K(!new), V>(ops: KeyOps<K>, c: seq<Slot<K, V>>, items: seq<Bucket>, q: Query<K>, j: nat)
    requires LawfulQuery(ops, q) && Unique(ops, Entries(c)) && IndexAgrees(items, c)
    requires j < |items| && items[j].pos < |c| ==> q.eq(c[items[j].pos].0.0)
    requires j < |items|
    ensures items[j].pos < |c| && Find(q.eq, Entries(c)) == Some(items[j].pos)
    ensures Bucket(Promote(c[items[j].pos].1), items[j].pos) == items[j]
  {
    AgreesIsBijection(items, c);
    assert items[j] in items;
    AtMostOneMatch(ops, Entries(c), q, items[j].pos);
  }

  /** If no bucket under the query's hash is accepted, no entry is. */
  lemma IndexMiss<K(!new), V>(ops: KeyOps<K>, c: seq<Slot<K, V>>, items: seq<Bucket>, q: Query<K>)
    requires LawfulQuery(ops, q) && HashesAgree(ops, c) && IndexAgrees(items, c)
    requires forall b | b in items && b.hash == Promote(q.hash) :: b.pos < |c| ==> !q.eq(c[b.pos].0.0)
    ensures Find(q.eq, Entries(c)) == None
  {
    AgreesIsBijection(items, c);
    forall i | 0 <= i < |c| ensures !q.eq(Entries(c)[i].0) {
      assert Bucket(Promote(c[i].1), i) in items;
    }
  }

  // ---- the operations on lists ----

  /** Put a value under a key: in place if an equivalent key is present (which then stays), at the end otherwise. */
  function Insert<K, V>(ops: KeyOps<K>, es: AssocList<K, V>, k: K, v: V): AssocList<K, V> {
    match Find(KeyQuery(ops, k).eq, es)
    case None => es + [(k, v)]
    case Some(i) => es[i := (es[i].0, v)]
  }

  /** The value under a key. */
  function Lookup<K, V>(eq: K -> bool, es: AssocList<K, V>): Option<V> {
    match Find(eq, es) case None => None case Some(i) => Some(es[i].1)
  }

  function Remove<K, V>(eq: K -> bool, es: AssocList<K, V>): AssocList<K, V> {
    match Find(eq, es) case None => es case Some(i) => RemoveAt(es, i)
  }

  /** The pair a key is stored with. */
  function LookupEntry<K, V>(eq: K -> bool, es: AssocList<K, V>): Option<(K, V)> {
    match Find(eq, es) case None => None case Some(i) => Some(es[i])
  }

  // ---- what the operations mean for those who look keys up ----

  /** Keys equivalent to `k` now lead to `v`, and all others where they led before. */
  ghost predicate Puts<K(!new), V>(ops: KeyOps<K>, es: AssocList<K, V>, k: K, v: V, es': AssocList<K, V>) {
    forall other ::
      Lookup(KeyQuery(ops, other).eq, es') ==
      if ops.eq(k, other) then Some(v) else Lookup(KeyQuery(ops, other).eq, es)
  }

  /** Stored keys stay where and what they are; `k` comes after them exactly if none of them is equivalent to it. */
  ghost predicate KeepsKeys<K, V>(ops: KeyOps<K>, es: AssocList<K, V>, k: K, es': AssocList<K, V>) {
    Keys(es') == if exists i :: 0 <= i < |es| && ops.eq(k, es[i].0) then Keys(es) else Keys(es) + [k]
  }

  lemma InsertPuts<K(!new), V>(ops: KeyOps<K>, es: AssocList<K, V>, k: K, v: V)
    requires Lawful(ops)
    ensures Puts(ops, es, k, v, Insert(ops, es, k, v)) && KeepsKeys(ops, es, k, Insert(ops, es, k, v))
  {
    var r := Insert(ops, es, k, v);
    forall other
      ensures Lookup(KeyQuery(ops, other).eq, r) ==
        if ops.eq(k, other) then Some(v) else Lookup(KeyQuery(ops, other).eq, es)
    {
      InsertSeen(ops, es, k, v, other);
    }
  }

  lemma InsertSeen<K(!new), V>(ops: KeyOps<K>, es: AssocList<K, V>, k: K, v: V, other: K)
    requires Lawful(ops)
    ensures Lookup(KeyQuery(ops, other).eq, Insert(ops, es, k, v)) ==
      if ops.eq(k, other) then Some(v) else Lookup(KeyQuery(ops, other).eq, es)
  {
    var r, q, p := Insert(ops, es, k, v), KeyQuery(ops, other).eq, KeyQuery(ops, k).eq;
    assert ops.eq(k, k);
    if ops.eq(k, other) {
      forall x ensures q(x) == p(x) {
        SameClass(ops, k, other, x);
      }
      FirstMatchIs(q, r, match Find(p, es) case None => |es| case Some(i) => i);
    } else {
      forall x | q(x) ensures !p(x) {
        OtherClass(ops, k, other, x);
      }
      match Find(q, es)
      case Some(j) => FirstMatchIs(q, r, j);
      case None => NoMatch(q, r);
    }
  }

  lemma SameClass<K(!new)>(ops: KeyOps<K>, a: K, b: K, x: K)
    requires Lawful(ops) && ops.eq(a, b)
    ensures ops.eq(b, x) == ops.eq(a, x)
  {
    assert ops.eq(b, a);
  }

  lemma OtherClass<K(!new)>(ops: KeyOps<K>, a: K, b: K, x: K)
    requires Lawful(ops) && !ops.eq(a, b) && ops.eq(b, x)
    ensures !ops.eq(a, x)
  {
    assert ops.eq(x, b);
  }

  lemma FirstMatchIs<K, V>(eq: K -> bool, es: AssocList<K, V>, i: nat)
    requires i < |es| && eq(es[i].0) && forall j :: 0 <= j < i ==> !eq(es[j].0)
    ensures Find(eq, es) == Some(i)
  {
  }

  lemma NoMatch<K, V>(eq: K -> bool, es: AssocList<K, V>)
    requires forall j :: 0 <= j < |es| ==> !eq(es[j].0)
    ensures Find(eq, es) == None
  {
  }

  /** The lookup key finds nothing any more, and keys not equivalent to the one it found lead where they led. */
  ghost predicate Forgets<K(!new), V>(ops: KeyOps<K>, es: AssocList<K, V>, q: Query<K>, es': AssocList<K, V>) {
    && Lookup(q.eq, es') == None
    && forall other :: (forall i :: 0 <= i < |es| && q.eq(es[i].0) ==> !ops.eq(other, es[i].0)) ==>
        Lookup(KeyQuery(ops, other).eq, es') == Lookup(KeyQuery(ops, other).eq, es)
  }

  lemma RemoveForgets<K(!new), V>(ops: KeyOps<K>, es: AssocList<K, V>, q: Query<K>)
    requires Lawful(ops) && LawfulQuery(ops, q) && Unique(ops, es)
    ensures Forgets(ops, es, q, Remove(q.eq, es))
  {
    match Find(q.eq, es)
    case None =>
    case Some(i) =>
      var r := RemoveAt(es, i);
      forall j | 0 <= j < |r| ensures !q.eq(r[j].0) {
        RemoveAtIndex(es, i, j);
      }
      NoMatch(q.eq, r);
      forall other | !ops.eq(other, es[i].0)
        ensures Lookup(KeyQuery(ops, other).eq, r) == Lookup(KeyQuery(ops, other).eq, es)
      {
        RemoveSeen(KeyQuery(ops, other).eq, es, i);
      }
  }

  lemma RemoveSeen<K, V>(eq: K -> bool, es: AssocList<K, V>, i: nat)
    requires i < |es| && !eq(es[i].0)
    ensures Lookup(eq, RemoveAt(es, i)) == Lookup(eq, es)
  {
    var r := RemoveAt(es, i);
    forall j | 0 <= j < |r| ensures r[j] == es[if j < i then j else j + 1] {
      RemoveAtIndex(es, i, j);
    }
    hide RemoveAt;
    match Find(eq, es)
    case None => NoMatch(eq, r);
    case Some(p) => FirstMatchIs(eq, r, if p < i then p else p - 1);
  }

  /** No entry panics when it is dropped. */
  ghost predicate DropsCleanly<K, V>(drop: (K, V) -> bool, es: AssocList<K, V>) {
    forall i :: 0 <= i < |es| ==> !drop(es[i].0, es[i].1)
  }

  lemma UniqueAppend<K(!new), V>(ops: KeyOps<K>, es: AssocList<K, V>, k: K, v: V)
    requires Lawful(ops) && Unique(ops, es) && Find(KeyQuery(ops, k).eq, es) == None
    ensures Unique(ops, es + [(k, v)])
  {
    forall i | 0 <= i < |es| ensures !ops.eq(k, es[i].0) && !ops.eq(es[i].0, k) {
      assert !KeyQuery(ops, k).eq(es[i].0);
    }
  }

  lemma AppendIsValid<K(!new), V>(ops: KeyOps<K>, c: seq<Slot<K, V>>, k: K, v: V)
    requires SlotsValid(ops, c) && Find(KeyQuery(ops, k).eq, Entries(c)) == None
    ensures SlotsValid(ops, c + [((k, v), ops.hash(k))])
    ensures Entries(c + [((k, v), ops.hash(k))]) == Entries(c) + [(k, v)]
  {
    UniqueAppend(ops, Entries(c), k, v);
    assert Entries(c + [((k, v), ops.hash(k))]) == Entries(c) + [(k, v)];
  }

  lemma UniqueRemoveAt<K, V>(ops: KeyOps<K>, es: AssocList<K, V>, i: nat)
    requires Unique(ops, es) && i < |es|
    ensures Unique(ops, RemoveAt(es, i))
  {
  }

  lemma UniqueReversed<K, V>(ops: KeyOps<K>, es: AssocList<K, V>)
    requires Unique(ops, es)
    ensures Unique(ops, Reversed(es))
  {
  }

  lemma RemoveAtIsValid<K(!new), V>(ops: KeyOps<K>, c: seq<Slot<K, V>>, i: nat)
    requires SlotsValid(ops, c) && i < |c|
    ensures SlotsValid(ops, RemoveAt(c, i))
    ensures Entries(RemoveAt(c, i)) == RemoveAt(Entries(c), i)
  {
    UniqueRemoveAt(ops, Entries(c), i);
    assert Entries(RemoveAt(c, i)) == RemoveAt(Entries(c), i);
  }

  lemma ReversedIsValid<K(!new), V>(ops: KeyOps<K>, c: seq<Slot<K, V>>)
    requires SlotsValid(ops, c)
    ensures SlotsValid(ops, Reversed(c))
    ensures Entries(Reversed(c)) == Reversed(Entries(c))
  {
    assert Entries(Reversed(c)) == Reversed(Entries(c));
  }

  lemma ReplaceIsValid<K(!new), V>(ops: KeyOps<K>, c: seq<Slot<K, V>>, i: nat, v: V)
    requires SlotsValid(ops, c) && i < |c|
    ensures var c' := c[i := ((c[i].0.0, v), c[i].1)];
      SlotsValid(ops, c') && Entries(c') == Entries(c)[i := (c[i].0.0, v)] && Buckets(c') == Buckets(c)
  {
    var c' := c[i := ((c[i].0.0, v), c[i].1)];
    assert Entries(c') == Entries(c)[i := (c[i].0.0, v)];
    assert Buckets(c') == Buckets(c);
  }

  /** Uniqueness does not depend on the order. */
  lemma {:induction false} UniqueReordered<K(!new), V>(ops: KeyOps<K>, s: AssocList<K, V>, t: AssocList<K, V>)
    requires Lawful(ops) && Unique(ops, s) && multiset(s) == multiset(t)
    ensures Unique(ops, t)
    decreases |s|
  {
    if s == [] {
      assert |multiset(t)| == 0;
    } else {
      hide RemoveAt;
      var k := Extract(s, t);
      var t' := RemoveAt(t, k);
      assert Unique(ops, s[1..]);
      UniqueReordered(ops, s[1..], t');
      forall i | 0 <= i < |t'| ensures !ops.eq(s[0].0, t'[i].0) && !ops.eq(t'[i].0, s[0].0) {
        assert t'[i] in multiset(s[1..]);
      }
      forall i, j | 0 <= i < |t| && 0 <= j < |t| && i != j ensures !ops.eq(t[i].0, t[j].0) {
        if i != k { RemoveAtIndex(t, k, if i < k then i else i - 1); }
        if j != k { RemoveAtIndex(t, k, if j < k then j else j - 1); }
      }
    }
  }
}
