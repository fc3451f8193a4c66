/** What `SmallMap::retain` does to the entry list, interrupted or not. */
module Retaining {
  import opened Integers
  import opened HashValue
  import opened Sequences
  import opened Vec2Storage
  import opened VecMaps
  import opened MapIndex
  import opened AssocLists

  /** One answer of the predicate given to `SmallMap::retain`; it may rewrite the value but not the key. */
  datatype Verdict<+V> =
    | Retain(v: V)
    | Reject(dropPanics: bool)
    | Abort(v: V)

  type MapClosure<!K, !V> = (nat, K, V) -> Verdict<V>

  /** The predicate on key-value pairs. */
  function OnPairs<K, V>(f: MapClosure<K, V>): Closure<K, V> {
    (n: nat, k: K, v: V) =>
      match f(n, k, v)
      case Retain(v') => Keep(k, v')
      case Reject(p) => Drop(p)
      case Abort(v') => Panic(k, v')
  }

  /** The predicate on stored entries: it never sees the hash. */
  function OnSlots<K, V>(f: MapClosure<K, V>): Closure<(K, V), u32> {
    (n: nat, kv: (K, V), h: u32) =>
      match f(n, kv.0, kv.1)
      case Retain(v') => Keep((kv.0, v'), h)
      case Reject(p) => Drop(p)
      case Abort(v') => Panic((kv.0, v'), h)
  }

  /** The predicate that behaves as `f` did up to and including call `n`, where it stopped,
      and keeps everything after. */
  function Settled<K, V>(f: MapClosure<K, V>, n: nat): MapClosure<K, V> {
    (i: nat, k: K, v: V) =>
      if i < n then f(i, k, v)
      else if i == n then (match f(i, k, v) case Abort(v') => Retain(v') case _ => Reject(false))
      else Retain(v)
  }

  lemma {:induction false} KeptCongruent<A, B>(f: Closure<A, B>, g: Closure<A, B>, c: seq<(A, B)>, n: nat)
    requires n <= |c| && forall i :: 0 <= i < n ==> f(i, c[i].0, c[i].1) == g(i, c[i].0, c[i].1)
    ensures Kept(f, c, n) == Kept(g, c, n)
  {
    if n > 0 {
      KeptCongruent(f, g, c, n - 1);
    }
  }

  lemma {:induction false} StopAtSame<K, V>(f: MapClosure<K, V>, c: seq<Slot<K, V>>, k: nat)
    requires k <= |c|
    ensures StopAt(OnSlots(f), c, k) == StopAt(OnPairs(f), Entries(c), k)
    decreases |c| - k
  {
    if k < |c| {
      StopAtSame(f, c, k + 1);
    }
  }

  lemma {:induction false} KeptEntries<K, V>(f: MapClosure<K, V>, c: seq<Slot<K, V>>, n: nat)
    requires n <= |c|
    ensures Entries(Kept(OnSlots(f), c, n)) == Kept(OnPairs(f), Entries(c), n)
  {
    if n > 0 {
      KeptEntries(f, c, n - 1);
    }
  }

  lemma RestEntries<K, V>(f: MapClosure<K, V>, c: seq<Slot<K, V>>, n: nat)
    requires n <= |c|
    ensures Entries(Rest(OnSlots(f), c, n)) == Rest(OnPairs(f), Entries(c), n)
  {
    if n < |c| {
      assert Entries(c)[n + 1..] == Entries(c[n + 1..]);
    }
  }

  /** Without their hashes, the slots that stay are the pairs that stay. */
  lemma RetainedEntries<K, V>(f: MapClosure<K, V>, c: seq<Slot<K, V>>)
    ensures Entries(Retained(OnSlots(f), c)) == Retained(OnPairs(f), Entries(c))
  {
    StopAtSame(f, c, 0);
    var n := StopAt(OnSlots(f), c, 0);
    KeptEntries(f, c, n);
    RestEntries(f, c, n);
    EntriesConcat(Kept(OnSlots(f), c, n), Rest(OnSlots(f), c, n));
  }

  lemma EntriesConcat<K, V>(a: seq<Slot<K, V>>, b: seq<Slot<K, V>>)
    ensures Entries(a + b) == Entries(a) + Entries(b)
  {
  }

  /** `g` answers calls after `n` by keeping the element as it is. */
  ghost predicate KeepsAfter<A, B>(g: Closure<A, B>, c: seq<(A, B)>, n: nat) {
    forall i :: n < i < |c| ==> g(i, c[i].0, c[i].1) == Keep(c[i].0, c[i].1)
  }

  lemma {:induction false} KeptTail<A, B>(g: Closure<A, B>, c: seq<(A, B)>, n: nat, m: nat)
    requires n < m <= |c| && KeepsAfter(g, c, n)
    ensures Kept(g, c, m) == Kept(g, c, n + 1) + c[n + 1..m]
    decreases m
  {
    if m > n + 1 {
      KeptTail(g, c, n, m - 1);
      assert c[n + 1..m] == c[n + 1..m - 1] + [c[m - 1]];
    }
  }

  lemma KeptRest<A, B>(f: Closure<A, B>, g: Closure<A, B>, c: seq<(A, B)>, n: nat)
    requires n < |c| && f(n, c[n].0, c[n].1).Stops() && KeepsAfter(g, c, n)
    requires g(n, c[n].0, c[n].1) ==
      match f(n, c[n].0, c[n].1) case Panic(a, b) => Keep(a, b) case _ => Drop(false)
    ensures Kept(g, c, |c|) == Kept(g, c, n) + Rest(f, c, n)
  {
    var mid, tail := RestParts(f, g, c, n);
    Regroup(Kept(g, c, |c|), Kept(g, c, n), mid, tail);
  }

  lemma RestParts<A, B>(f: Closure<A, B>, g: Closure<A, B>, c: seq<(A, B)>, n: nat)
    returns (mid: seq<(A, B)>, tail: seq<(A, B)>)
    requires n < |c| && KeepsAfter(g, c, n)
    requires g(n, c[n].0, c[n].1) ==
      match f(n, c[n].0, c[n].1) case Panic(a, b) => Keep(a, b) case _ => Drop(false)
    ensures Rest(f, c, n) == mid + tail
    ensures Kept(g, c, |c|) == Kept(g, c, n) + mid + tail
  {
    var s := f(n, c[n].0, c[n].1);
    mid, tail := if s.Panic? then [(s.a, s.b)] else [], c[n + 1..];
    KeptTail(g, c, n, |c|);
  }

  lemma Regroup<T>(all: seq<T>, a: seq<T>, b: seq<T>, c: seq<T>)
    requires all == a + b + c
    ensures all == a + (b + c)
  {
  }

  lemma {:induction false} StopAtIsFirst<A, B>(f: Closure<A, B>, c: seq<(A, B)>, k: nat)
    requires k <= |c|
    ensures var n := StopAt(f, c, k);
      && (forall i :: k <= i < n ==> !f(i, c[i].0, c[i].1).Stops())
      && (n < |c| ==> f(n, c[n].0, c[n].1).Stops())
    decreases |c| - k
  {
    if k < |c| {
      StopAtIsFirst(f, c, k + 1);
    }
  }

  /** An interrupted `retain` leaves what an uninterrupted one with the settled predicate would keep. */
  lemma RetainedIsKept<K, V>(f: MapClosure<K, V>, c: seq<Slot<K, V>>)
    ensures Retained(OnSlots(f), c) == Kept(OnSlots(Settled(f, StopAt(OnSlots(f), c, 0))), c, |c|)
  {
    var n := StopAt(OnSlots(f), c, 0);
    StopAtIsFirst(OnSlots(f), c, 0);
    KeptCongruent(OnSlots(f), OnSlots(Settled(f, n)), c, n);
    if n < |c| {
      var g := OnSlots(Settled(f, n));
      forall i | n < i < |c| ensures g(i, c[i].0, c[i].1) == Keep(c[i].0, c[i].1) {
        assert c[i].0 == (c[i].0.0, c[i].0.1);
      }
      KeptRest(OnSlots(f), g, c, n);
    }
  }

  /** Every kept slot has the key and the hash of an original slot. */
  ghost predicate KeysFrom<K, V>(r: seq<Slot<K, V>>, c: seq<Slot<K, V>>, n: nat)
    requires n <= |c|
  {
    forall j :: 0 <= j < |r| ==> exists i :: 0 <= i < n && SameKey(r[j], c[i])
  }

  ghost predicate SameKey<K, V>(x: Slot<K, V>, y: Slot<K, V>) {
    x.0.0 == y.0.0 && x.1 == y.1
  }

  lemma {:induction false} KeptIsValid<K(!new), V>(ops: KeyOps<K>, f: MapClosure<K, V>, c: seq<Slot<K, V>>, n: nat)
    requires SlotsValid(ops, c) && n <= |c|
    ensures KeysFrom(Kept(OnSlots(f), c, n), c, n) && SlotsValid(ops, Kept(OnSlots(f), c, n))
  {
    if n > 0 {
      KeptIsValid(ops, f, c, n - 1);
      var r := Kept(OnSlots(f), c, n - 1);
      forall j | 0 <= j < |r|
        ensures !ops.eq(r[j].0.0, c[n - 1].0.0) && !ops.eq(c[n - 1].0.0, r[j].0.0)
      {
        var i :| 0 <= i < n - 1 && SameKey(r[j], c[i]);
        assert !ops.eq(Entries(c)[i].0, Entries(c)[n - 1].0) && !ops.eq(Entries(c)[n - 1].0, Entries(c)[i].0);
      }
      var r' := Kept(OnSlots(f), c, n);
      assert |r'| > |r| ==> SameKey(r'[|r|], c[n - 1]);
      forall j | 0 <= j < |r'| ensures exists i :: 0 <= i < n && SameKey(r'[j], c[i]) {
        if j < |r| {
          var i :| 0 <= i < n - 1 && SameKey(r[j], c[i]);
          assert SameKey(r'[j], c[i]);
        }
      }
    }
  }

  /** If nothing was dropped, every position still holds the same key under the same hash. */
  lemma {:induction false} KeptWhole<K, V>(f: MapClosure<K, V>, c: seq<Slot<K, V>>, n: nat)
    requires n <= |c| && |Kept(OnSlots(f), c, n)| == n
    ensures forall i :: 0 <= i < n ==> SameKey(Kept(OnSlots(f), c, n)[i], c[i])
  {
    if n > 0 {
      KeptWhole(f, c, n - 1);
    }
  }

  /** `retain` keeps the entry list well formed, and leaves the index alone if it removed nothing. */
  lemma RetainedIsValid<K(!new), V>(ops: KeyOps<K>, f: MapClosure<K, V>, c: seq<Slot<K, V>>)
    requires SlotsValid(ops, c)
    ensures var r := Retained(OnSlots(f), c);
      && SlotsValid(ops, r)
      && Entries(r) == Retained(OnPairs(f), Entries(c))
      && |r| <= |c|
      && (|r| == |c| ==> Buckets(r) == Buckets(c))
  {
    RetainedEntries(f, c);
    RetainedIsKept(f, c);
    KeptSummary(ops, Settled(f, StopAt(OnSlots(f), c, 0)), c, Retained(OnSlots(f), c));
  }

  lemma KeptSummary<K(!new), V>(ops: KeyOps<K>, g: MapClosure<K, V>, c: seq<Slot<K, V>>, r: seq<Slot<K, V>>)
    requires SlotsValid(ops, c) && r == Kept(OnSlots(g), c, |c|)
    ensures SlotsValid(ops, r) && |r| <= |c|
    ensures |r| == |c| ==> Buckets(r) == Buckets(c)
  {
    KeptIsValid(ops, g, c, |c|);
    if |r| == |c| {
      KeptWhole(g, c, |c|);
      SameKeysSameBuckets(r, c);
    }
  }

  lemma SameKeysSameBuckets<K, V>(r: seq<Slot<K, V>>, c: seq<Slot<K, V>>)
    requires |r| == |c| && forall i :: 0 <= i < |c| ==> SameKey(r[i], c[i])
    ensures Buckets(r) == Buckets(c)
  {
  }

  // ---- the plain case ----

  function Filter<K, V>(p: (K, V) -> bool, es: AssocList<K, V>): AssocList<K, V> {
    if es == [] then [] else (if p(es[0].0, es[0].1) then [es[0]] else []) + Filter(p, es[1..])
  }

  /** A predicate that neither panics nor rewrites. */
  function Plain<K, V>(p: (K, V) -> bool): MapClosure<K, V> {
    (n: nat, k: K, v: V) => if p(k, v) then Retain(v) else Reject(false)
  }

  lemma {:induction false} FilterAppend<K, V>(p: (K, V) -> bool, es: AssocList<K, V>, e: (K, V))
    ensures Filter(p, es + [e]) == Filter(p, es) + if p(e.0, e.1) then [e] else []
    decreases |es|
  {
    if es == [] {
      assert es + [e] == [e];
    } else {
      FilterAppend(p, es[1..], e);
      var all := es + [e];
      assert all[0] == es[0] && all[1..] == es[1..] + [e];
      var head, last := if p(es[0].0, es[0].1) then [es[0]] else [], if p(e.0, e.1) then [e] else [];
      Associate(head, Filter(p, es[1..]), last);
    }
  }

  lemma {:induction false} KeptIsFilter<K, V>(p: (K, V) -> bool, es: AssocList<K, V>, n: nat)
    requires n <= |es|
    ensures Kept(OnPairs(Plain(p)), es, n) == Filter(p, es[..n])
  {
    if n > 0 {
      KeptIsFilter(p, es, n - 1);
      FilterAppend(p, es[..n - 1], es[n - 1]);
      assert es[..n] == es[..n - 1] + [es[n - 1]];
    }
  }

  /** Run to the end, `retain` is a filter. */
  lemma RetainIsFilter<K, V>(p: (K, V) -> bool, es: AssocList<K, V>)
    ensures Retained(OnPairs(Plain(p)), es) == Filter(p, es)
  {
    StopAtIsFirst(OnPairs(Plain(p)), es, 0);
    KeptIsFilter(p, es, |es|);
    assert es[..|es|] == es;
    assert StopAt(OnPairs(Plain(p)), es, 0) == |es|;
  }

  // ---- what `retain` leaves, entry by entry ----

  /** `es'` is what `retain` makes of `es`: call `n` is the first that panics, if any does; the entries before it
      that the predicate retained, at the places `ks`, stay with the values it left in them, and the others go;
      then comes the entry a panicking predicate was looking at, but not one whose drop panicked, and the rest. */
  ghost predicate RetainLeaves<K, V>(f: MapClosure<K, V>, es: AssocList<K, V>, n: nat, ks: seq<nat>,
                                     es': AssocList<K, V>) {
    && n <= |es|
    && (forall j :: 0 <= j < n ==> match f(j, es[j].0, es[j].1)
          case Retain(_) => j in ks
          case Reject(dropPanics) => j !in ks && !dropPanics
          case Abort(_) => false)
    && Ascending(ks, n)
    && |ks| <= |es'|
    && (forall i :: 0 <= i < |ks| ==> es'[i].0 == es[ks[i]].0 && f(ks[i], es[ks[i]].0, es[ks[i]].1) == Retain(es'[i].1))
    && (n == |es| ==> es'[|ks|..] == [])
    && (n < |es| ==> match f(n, es[n].0, es[n].1)
          case Retain(_) => false
          case Reject(dropPanics) => dropPanics && es'[|ks|..] == es[n + 1..]
          case Abort(v) => es'[|ks|..] == [(es[n].0, v)] + es[n + 1..])
  }

  lemma {:induction false} KeptPlaces<K, V>(f: MapClosure<K, V>, es: AssocList<K, V>, n: nat) returns (ks: seq<nat>)
    requires n <= |es|
    ensures Ascending(ks, n) && |ks| == |Kept(OnPairs(f), es, n)|
    ensures forall i :: 0 <= i < |ks| ==>
      var r := Kept(OnPairs(f), es, n);
      r[i].0 == es[ks[i]].0 && f(ks[i], es[ks[i]].0, es[ks[i]].1) == Retain(r[i].1)
    ensures forall j :: 0 <= j < n ==> (j in ks <==> f(j, es[j].0, es[j].1).Retain?)
  {
    ks := [];
    if n > 0 {
      ks := KeptPlaces(f, es, n - 1);
      if f(n - 1, es[n - 1].0, es[n - 1].1).Retain? {
        ks := ks + [n - 1];
      }
    }
  }

  lemma RetainedLeaves<K, V>(f: MapClosure<K, V>, es: AssocList<K, V>) returns (n: nat, ks: seq<nat>)
    ensures RetainLeaves(f, es, n, ks, Retained(OnPairs(f), es))
    ensures n == |es| <==> StopAt(OnPairs(f), es, 0) == |es|
  {
    n := StopAt(OnPairs(f), es, 0);
    StopAtIsFirst(OnPairs(f), es, 0);
    ks := KeptPlaces(f, es, n);
    var kept, rest := Kept(OnPairs(f), es, n), Rest(OnPairs(f), es, n);
    assert (kept + rest)[|ks|..] == rest;
  }
}
