/** What the index of a `SmallMap` has to be, and why each way of repairing it is right. */
module MapIndex {
  import opened Options
  import opened Sequences
  import opened HashValue
  import opened HashTables
  import opened VecMaps

  /** The buckets of a perfect index: one for each position, under the promoted hash of its key. */
  function Buckets<K, V>(c: seq<Slot<K, V>>): (r: seq<Bucket>)
    ensures |r| == |c|
    ensures forall i :: 0 <= i < |c| ==> r[i] == Bucket(Promote(c[i].1), i)
  {
    seq(|c|, i requires 0 <= i < |c| => Bucket(Promote(c[i].1), i))
  }

  /** The table holds a perfect index of `c`, in whatever order. */
  ghost predicate IndexAgrees<K, V>(items: seq<Bucket>, c: seq<Slot<K, V>>) {
    multiset(items) == multiset(Buckets(c))
  }

  /** Every stored position rewritten by `f`. */
  function MapPos(f: nat -> nat, s: seq<Bucket>): (r: seq<Bucket>)
    ensures |r| == |s|
    ensures forall i :: 0 <= i < |s| ==> r[i] == Bucket(s[i].hash, f(s[i].pos))
  {
    seq(|s|, i requires 0 <= i < |s| => Bucket(s[i].hash, f(s[i].pos)))
  }

  /** The repair after removing position `i`: later positions move down by one. */
  function Shift(i: nat): nat -> nat {
    (p: nat) => if p > i then p - 1 else p
  }

  /** The closure `shift_remove_index_hashed` passes to `retain`. */
  function ShiftOrDrop(i: nat): nat -> Option<nat> {
    (p: nat) => if p == i then None else Some(Shift(i)(p))
  }

  function Mirror(n: nat): nat -> nat {
    (p: nat) => if p < n then n - 1 - p else p
  }

  /** An agreeing index is a bijection onto `0..|c|`: as many buckets as entries, each position under
      its own hash in exactly one bucket, and no bucket beyond the end. */
  lemma AgreesIsBijection<K, V>(items: seq<Bucket>, c: seq<Slot<K, V>>)
    requires IndexAgrees(items, c)
    ensures |items| == |c|
    ensures forall b :: b in items <==> b.pos < |c| && b.hash == Promote(c[b.pos].1)
    ensures forall i, j :: 0 <= i < j < |items| ==> items[i].pos != items[j].pos
  {
    var bs := Buckets(c);
    assert |items| == |multiset(items)| == |multiset(bs)| == |bs|;
    forall b ensures b in items <==> b.pos < |c| && b.hash == Promote(c[b.pos].1) {
      assert b in items <==> b in multiset(items);
      assert b in bs <==> b in multiset(bs);
      if b.pos < |c| {
        assert bs[b.pos].pos == b.pos;
      }
    }
    forall i, j | 0 <= i < j < |items| ensures items[i].pos != items[j].pos {
      if items[i].pos == items[j].pos {
        assert items[i] in items && items[j] in items && items[i] == items[j];
        RemoveAtMultiset(items, j);
        assert RemoveAt(items, j)[i] == items[i];
        AtMostOnce(bs, items[i].pos);
      }
    }
  }

  /** Conversely, a bijection under the right hashes is an agreeing index. */
  lemma BijectionAgrees<K, V>(items: seq<Bucket>, c: seq<Slot<K, V>>)
    requires |items| == |c|
    requires forall b | b in items :: b.pos < |c| && b.hash == Promote(c[b.pos].1)
    requires forall i, j :: 0 <= i < j < |items| ==> items[i].pos != items[j].pos
    ensures IndexAgrees(items, c)
  {
    var bs := Buckets(c);
    forall b ensures multiset(items)[b] <= multiset(bs)[b] {
      if b in items {
        var i :| 0 <= i < |items| && items[i] == b;
        AtMostOnce(items, i);
        assert bs[b.pos] == b;
        assert b in multiset(bs);
      }
    }
    assert multiset(items) <= multiset(bs);
    assert |multiset(bs) - multiset(items)| == |bs| - |items|;
  }

  lemma AtMostOnce(items: seq<Bucket>, i: nat)
    requires i < |items|
    requires forall j, k :: 0 <= j < k < |items| ==> items[j].pos != items[k].pos
    ensures multiset(items)[items[i]] == 1
  {
    RemoveAtMultiset(items, i);
    assert items[i] !in RemoveAt(items, i);
  }

  lemma AppendAgrees<K, V>(items: seq<Bucket>, items': seq<Bucket>, c: seq<Slot<K, V>>, slot: Slot<K, V>)
    requires IndexAgrees(items, c)
    requires multiset(items') == multiset(items) + multiset{Bucket(Promote(slot.1), |c|)}
    ensures IndexAgrees(items', c + [slot])
  {
    assert Buckets(c + [slot]) == Buckets(c) + [Bucket(Promote(slot.1), |c|)];
  }

  lemma PopAgrees<K, V>(items: seq<Bucket>, items': seq<Bucket>, c: seq<Slot<K, V>>, slot: Slot<K, V>)
    requires IndexAgrees(items, c + [slot])
    requires multiset(items') == multiset(items) - multiset{Bucket(Promote(slot.1), |c|)}
    ensures IndexAgrees(items', c)
  {
    assert Buckets(c + [slot]) == Buckets(c) + [Bucket(Promote(slot.1), |c|)];
  }

  /** Rewriting positions does not depend on the order of the buckets. */
  lemma {:induction false} MapPosMultiset(f: nat -> nat, s: seq<Bucket>, t: seq<Bucket>)
    requires multiset(s) == multiset(t)
    ensures multiset(MapPos(f, s)) == multiset(MapPos(f, t))
    decreases |s|
  {
    if s == [] {
      assert |multiset(t)| == 0;
    } else {
      var k := Extract(s, t);
      MapPosMultiset(f, s[1..], RemoveAt(t, k));
      RemoveAtMultiset(MapPos(f, s), 0);
      RemoveAtMultiset(MapPos(f, t), k);
      assert RemoveAt(MapPos(f, s), 0) == MapPos(f, s[1..]);
      assert RemoveAt(MapPos(f, t), k) == MapPos(f, RemoveAt(t, k));
    }
  }

  lemma {:induction false} FilterMapMultiset(f: nat -> Option<nat>, s: seq<Bucket>, t: seq<Bucket>)
    requires multiset(s) == multiset(t)
    ensures multiset(FilterMap(f, s)) == multiset(FilterMap(f, t))
    decreases |s|
  {
    if s == [] {
      assert |multiset(t)| == 0;
    } else {
      var k := Extract(s, t);
      FilterMapMultiset(f, s[1..], RemoveAt(t, k));
      FilterMapPick(f, s, 0);
      FilterMapPick(f, t, k);
      assert RemoveAt(s, 0) == s[1..];
    }
  }

  lemma FilterMapPick(f: nat -> Option<nat>, s: seq<Bucket>, k: nat)
    requires k < |s|
    ensures multiset(FilterMap(f, s)) == multiset(FilterMap(f, RemoveAt(s, k))) + multiset(FilterMap(f, [s[k]]))
  {
    var a, b := SplitAround(s, k);
    FilterMapParts(f, s, a, [s[k]], b);
  }

  lemma FilterMapParts(f: nat -> Option<nat>, s: seq<Bucket>, a: seq<Bucket>, x: seq<Bucket>, b: seq<Bucket>)
    requires s == a + (x + b)
    ensures multiset(FilterMap(f, s)) == multiset(FilterMap(f, a + b)) + multiset(FilterMap(f, x))
  {
    FilterMapConcat(f, a, x + b);
    FilterMapConcat(f, x, b);
    FilterMapConcat(f, a, b);
  }

  lemma {:induction false} FilterMapKeepsAll(f: nat -> Option<nat>, g: nat -> nat, s: seq<Bucket>)
    requires forall b | b in s :: f(b.pos) == Some(g(b.pos))
    ensures FilterMap(f, s) == MapPos(g, s)
    decreases |s|
  {
    if s != [] {
      assert s[0] in s;
      FilterMapKeepsAll(f, g, s[1..]);
    }
  }

  lemma ShiftedBuckets<K, V>(c: seq<Slot<K, V>>, i: nat)
    requires i < |c|
    ensures MapPos(Shift(i), RemoveAt(Buckets(c), i)) == Buckets(RemoveAt(c, i))
  {
    var l, r := MapPos(Shift(i), RemoveAt(Buckets(c), i)), Buckets(RemoveAt(c, i));
    forall j | 0 <= j < |r| ensures l[j] == r[j] {
      RemoveAtIndex(c, i, j);
      RemoveAtIndex(Buckets(c), i, j);
    }
  }

  /** Taking out the bucket of position `i` and shifting the rest indexes the list without entry `i`. */
  lemma ShiftAgrees<K, V>(items: seq<Bucket>, c: seq<Slot<K, V>>, i: nat)
    requires i < |c|
    requires multiset(items) == multiset(Buckets(c)) - multiset{Buckets(c)[i]}
    ensures IndexAgrees(MapPos(Shift(i), items), RemoveAt(c, i))
  {
    var bs := Buckets(c);
    RemoveAtMultiset(bs, i);
    MapPosMultiset(Shift(i), items, RemoveAt(bs, i));
    ShiftedBuckets(c, i);
  }

  /** Nothing needs shifting when the last entry goes. */
  lemma ShiftLast<K, V>(items: seq<Bucket>, c: seq<Slot<K, V>>)
    requires |c| > 0
    requires multiset(items) == multiset(Buckets(c)) - multiset{Buckets(c)[|c| - 1]}
    ensures IndexAgrees(items, RemoveAt(c, |c| - 1))
  {
    var bs, n := Buckets(c), |c| - 1;
    assert bs == bs[..n] + [bs[n]];
    assert bs[..n] == Buckets(RemoveAt(c, n));
  }

  lemma RetainAgrees<K, V>(items: seq<Bucket>, c: seq<Slot<K, V>>, i: nat)
    requires i < |c| && IndexAgrees(items, c)
    ensures IndexAgrees(FilterMap(ShiftOrDrop(i), items), RemoveAt(c, i))
  {
    var bs := Buckets(c);
    FilterMapMultiset(ShiftOrDrop(i), items, bs);
    FilterMapPick(ShiftOrDrop(i), bs, i);
    assert FilterMap(ShiftOrDrop(i), [bs[i]]) == [];
    OthersAreShifted(c, i);
    RemoveAtMultiset(bs, i);
    ShiftAgrees(RemoveAt(bs, i), c, i);
  }

  lemma OthersAreShifted<K, V>(c: seq<Slot<K, V>>, i: nat)
    requires i < |c|
    ensures FilterMap(ShiftOrDrop(i), RemoveAt(Buckets(c), i)) == MapPos(Shift(i), RemoveAt(Buckets(c), i))
  {
    var rest := RemoveAt(Buckets(c), i);
    forall b | b in rest ensures b.pos != i {
      var j :| 0 <= j < |rest| && rest[j] == b;
      RemoveAtIndex(Buckets(c), i, j);
    }
    FilterMapKeepsAll(ShiftOrDrop(i), Shift(i), rest);
  }

  lemma MirrorAgrees<K, V>(items: seq<Bucket>, c: seq<Slot<K, V>>)
    requires IndexAgrees(items, c)
    ensures IndexAgrees(MapPos(Mirror(|c|), items), Reversed(c))
  {
    var bs := Buckets(c);
    MapPosMultiset(Mirror(|c|), items, bs);
    assert MapPos(Mirror(|c|), bs) == Reversed(Buckets(Reversed(c)));
    ReversedMultiset(Buckets(Reversed(c)));
  }
}
