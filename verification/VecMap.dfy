/** The entry list of a `SmallMap`: keys and values in one column, 32-bit hashes in the other
    (starlark_map/src/vec_map.rs, starlark_map/src/vec_map/simd.rs). */
module VecMaps {
  import opened Integers
  import opened Options
  import opened Sorting
  import opened Vec2Storage

  type VecMap<K(0), V(0)> = Vec2<(K, V), u32>

  /** A stored entry: key, value, hash. */
  type Slot<K, V> = ((K, V), u32)

  /** Size of a SIMD vector of 32-bit lanes. */
  const LANES := 4

  /** `r` is the first place of `hash` in `a`, if there is one. */
  ghost predicate IsFirst(a: seq<u32>, hash: u32, r: Option<nat>) {
    match r
    case None => hash !in a
    case Some(i) => i < |a| && a[i] == hash && hash !in a[..i]
  }

  method FindHashWithoutSimd(a: seq<u32>, hash: u32) returns (r: Option<nat>)
    ensures IsFirst(a, hash, r)
  {
    var i := 0;
    while i < |a|
      invariant i <= |a| && hash !in a[..i]
    {
      if a[i] == hash {
        return Some(i);
      }
      i := i + 1;
    }
    return None;
  }

  /** One vector comparison: the first lane equal to `hash`. */
  function FirstLane(window: seq<u32>, hash: u32): (r: Option<nat>)
    requires |window| == LANES
    ensures IsFirst(window, hash, r)
  {
    if window[0] == hash then Some(0)
    else if window[1] == hash then Some(1)
    else if window[2] == hash then Some(2)
    else if window[3] == hash then Some(3)
    else None
  }

  lemma FirstInWindow(a: seq<u32>, lo: nat, scanned: nat, hash: u32, r: Option<nat>)
    requires lo <= scanned <= lo + LANES <= |a| && hash !in a[..scanned]
    requires IsFirst(a[lo..lo + LANES], hash, r)
    ensures r.Some? ==> IsFirst(a, hash, Some(lo + r.value))
    ensures r.None? ==> hash !in a[..lo + LANES]
  {
    assert a[..lo + LANES] == a[..lo] + a[lo..lo + LANES];
    assert a[..scanned] == a[..lo] + a[lo..scanned];
    if r.Some? {
      assert a[lo..lo + LANES][r.value] == a[lo + r.value];
      assert a[..lo + r.value] == a[..lo] + a[lo..lo + LANES][..r.value];
    }
  }

  /** Four lanes at a time; the last vector overlaps the one before it. */
  method FindHashInArray(a: seq<u32>, hash: u32, simd: bool) returns (r: Option<nat>)
    ensures IsFirst(a, hash, r)
  {
    if !simd || |a| < LANES {
      r := FindHashWithoutSimd(a, hash);
      return;
    }
    var i := 0;
    while i + LANES < |a|
      invariant i < |a| && hash !in a[..i]
    {
      var lane := FirstLane(a[i..i + LANES], hash);
      FirstInWindow(a, i, i, hash, lane);
      if lane.Some? {
        return Some(i + lane.value);
      }
      i := i + LANES;
    }
    var lane := FirstLane(a[|a| - LANES..], hash);
    assert a[|a| - LANES..] == a[|a| - LANES..|a| - LANES + LANES];
    FirstInWindow(a, |a| - LANES, i, hash, lane);
    if lane.Some? {
      return Some(|a| - LANES + lane.value);
    }
    assert a[..|a|] == a;
    return None;
  }

  /** The first entry whose hash is `hash` and whose key `eq` accepts. */
  ghost predicate FirstMatch<K, V>(c: seq<Slot<K, V>>, hash: u32, eq: K -> bool, r: Option<nat>) {
    match r
    case None => forall i :: 0 <= i < |c| ==> !Matches(c[i], hash, eq)
    case Some(j) => j < |c| && Matches(c[j], hash, eq) && forall i :: 0 <= i < j ==> !Matches(c[i], hash, eq)
  }

  predicate Matches<K, V>(slot: Slot<K, V>, hash: u32, eq: K -> bool) {
    slot.1 == hash && eq(slot.0.0)
  }

  /** Scan the hash column, confirming each hit by its key. */
  method GetIndexOfHashedRaw<K(0), V(0)>(m: VecMap<K, V>, hash: u32, eq: K -> bool, simd: bool)
    returns (r: Option<nat>)
    requires m.Valid()
    ensures FirstMatch(m.Contents(), hash, eq, r)
  {
    var hashes := m.bbb[..m.len];
    var i := 0;
    while i < |hashes|
      invariant i <= |hashes| && hashes == m.bbb[..m.len]
      invariant forall k :: 0 <= k < i ==> !Matches(m.Contents()[k], hash, eq)
    {
      var found := FindHashInArray(hashes[i..], hash, simd);
      if found == None {
        forall k | i <= k < |hashes| ensures !Matches(m.Contents()[k], hash, eq) {
          assert hashes[i..][k - i] == hashes[k];
        }
        return None;
      }
      forall k | i <= k < i + found.value ensures !Matches(m.Contents()[k], hash, eq) {
        assert hashes[i..][..found.value][k - i] == hashes[k];
      }
      i := i + found.value;
      if eq(m.aaa[i].0) {
        return Some(i);
      }
      i := i + 1;
    }
    return None;
  }

  /** `sort_keys`: sort whole entries by their keys. */
  function ByKey<K, V>(cmp: Comparator<K>): Comparator<Slot<K, V>> {
    (x: Slot<K, V>, y: Slot<K, V>) => cmp(x.0.0, y.0.0)
  }

  function SlotKeys<K, V>(c: seq<Slot<K, V>>): (r: seq<K>)
    ensures |r| == |c| && forall i :: 0 <= i < |c| ==> r[i] == c[i].0.0
  {
    seq(|c|, i requires 0 <= i < |c| => c[i].0.0)
  }

  /** `windows(2).all(..)` with `<=` on keys, decided by the first neighbours that are not in order:
      `None` if comparing these panics. */
  method IsSortedByKey<K(0), V(0)>(m: VecMap<K, V>, cmp: Comparator<K>) returns (r: Option<bool>)
    requires m.Valid()
    ensures var keys := SlotKeys(m.Contents());
      var k := FirstDisorder(cmp, keys, 1);
      r == if k >= |keys| then Some(true) else if cmp(keys[k - 1], keys[k]) == Panics then None else Some(false)
  {
    ghost var keys := SlotKeys(m.Contents());
    var i := 1;
    while i < m.len
      invariant 1 <= i && |keys| == m.len
      invariant FirstDisorder(cmp, keys, 1) == FirstDisorder(cmp, keys, i)
    {
      assert keys[i - 1] == m.aaa[i - 1].0 && keys[i] == m.aaa[i].0;
      match cmp(m.aaa[i - 1].0, m.aaa[i].0) {
        case Panics => return None;
        case Greater => return Some(false);
        case _ =>
      }
      i := i + 1;
    }
    return Some(true);
  }
}
