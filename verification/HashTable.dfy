/** A stand-in for hashbrown's `HashTable<usize>`: an unordered bag of buckets with a capacity.

    Clients see only what hashbrown promises.  A search compares 7-bit tags before calling `eq`, so
    `eq` may be asked about a bucket whose hash differs, and a hit is some bucket `eq` accepts.
    The order of buckets is unspecified: inserting and removing say how the bag changes, no more.
    Removing may leave a tombstone, which uses up capacity until a rehash or a clear; rehashing
    asks the given hasher about every stored position. */
module HashTables {
  import opened Integers
  import opened Options

  datatype Bucket = Bucket(hash: u64, pos: nat)

  /** The top seven bits. */
  function Tag(hash: u64): nat {
    hash / 0x200_0000_0000_0000
  }

  /** The hasher can be asked about every bucket and answers with the hash it was inserted under. */
  ghost predicate HasherAgrees(hasher: nat --> u64, items: seq<Bucket>) {
    forall b | b in items :: hasher.requires(b.pos) && hasher(b.pos) == b.hash
  }

  /** The buckets that survive `retain`, with the positions it rewrote. */
  function FilterMap(f: nat -> Option<nat>, s: seq<Bucket>): seq<Bucket> {
    if s == [] then [] else
    (match f(s[0].pos) case None => [] case Some(p) => [Bucket(s[0].hash, p)]) + FilterMap(f, s[1..])
  }

  lemma {:induction false} FilterMapConcat(f: nat -> Option<nat>, s: seq<Bucket>, t: seq<Bucket>)
    ensures FilterMap(f, s + t) == FilterMap(f, s) + FilterMap(f, t)
    decreases |s|
  {
    if s == [] {
      assert s + t == t;
    } else {
      assert (s + t)[1..] == s[1..] + t;
      FilterMapConcat(f, s[1..], t);
    }
  }

  class HashTable {
    /** Occupied buckets, in table order. */
    var items: seq<Bucket>
    /** Insertions left before a rehash. */
    var growthLeft: nat
    /** Buckets the table may hold; what is neither occupied nor in `growthLeft` is a tombstone. */
    var capacity: nat

    ghost predicate Valid()
      reads this
    {
      |items| + growthLeft <= capacity
    }

    constructor WithCapacity(n: nat)
      ensures Valid() && items == [] && growthLeft >= n
    {
      items, growthLeft, capacity := [], n, n;
    }

    /** The place of some bucket that `eq` accepts; `None` only if no bucket with this hash is accepted. */
    method FindEntry(hash: u64, eq: nat --> bool) returns (r: Option<nat>)
      requires forall b | b in items && Tag(b.hash) == Tag(hash) :: eq.requires(b.pos)
      ensures r.Some? ==>
        r.value < |items| && Tag(items[r.value].hash) == Tag(hash) && eq(items[r.value].pos)
      ensures r.None? ==> forall b | b in items && b.hash == hash :: !eq(b.pos)
    {
      var i := 0;
      while i < |items|
        invariant i <= |items|
        invariant forall j :: 0 <= j < i && items[j].hash == hash ==> !eq(items[j].pos)
      {
        if Tag(items[i].hash) == Tag(hash) && eq(items[i].pos) {
          return Some(i);
        }
        i := i + 1;
      }
      return None;
    }

    /** Rehash into a table with room for `additional` more. */
    method Rehash(additional: nat, hasher: nat --> u64)
      requires Valid() && HasherAgrees(hasher, items)
      modifies this
      ensures Valid() && multiset(items) == multiset(old(items))
      ensures growthLeft >= additional
    {
      var rehashed := [];
      var i := 0;
      while i < |items|
        invariant i <= |items| && rehashed == items[..i]
        invariant items == old(items) && capacity == old(capacity)
      {
        rehashed := rehashed + [Bucket(hasher(items[i].pos), items[i].pos)];
        i := i + 1;
      }
      assert items[..i] == items;
      items, growthLeft, capacity := rehashed, additional + i, 2 * i + additional;
    }

    method Reserve(additional: nat, hasher: nat --> u64)
      requires Valid()
      requires additional > growthLeft ==> HasherAgrees(hasher, items)
      modifies this
      ensures Valid() && multiset(items) == multiset(old(items))
      ensures growthLeft >= additional
    {
      if additional > growthLeft {
        Rehash(additional, hasher);
      }
    }

    /** Insert without looking for an equal bucket.  The hasher matters only when there is no room left. */
    method InsertUnique(hash: u64, pos: nat, hasher: nat --> u64)
      requires Valid()
      requires growthLeft == 0 ==> HasherAgrees(hasher, items)
      modifies this
      ensures Valid() && multiset(items) == multiset(old(items)) + multiset{Bucket(hash, pos)}
      ensures growthLeft >= old(growthLeft) - 1
    {
      if growthLeft == 0 {
        Rehash(1, hasher);
      }
      var reuseTombstone := false;
      if * {
        reuseTombstone := |items| + growthLeft < capacity;
      }
      items := items + [Bucket(hash, pos)];
      if !reuseTombstone {
        growthLeft := growthLeft - 1;
      }
    }

    method RemoveEntry(i: nat) returns (pos: nat)
      requires Valid() && i < |items|
      modifies this
      ensures Valid() && pos == old(items)[i].pos
      ensures multiset(items) == multiset(old(items)) - multiset{old(items)[i]}
    {
      pos := items[i].pos;
      assert items == items[..i] + [items[i]] + items[i + 1..];
      items := items[..i] + items[i + 1..];
      if * {
        growthLeft := growthLeft + 1;
      } else {
        // a tombstone was left behind
      }
    }

    /** One step of `iter_mut`: rewrite the position stored in a bucket. */
    method SetPos(i: nat, pos: nat)
      requires Valid() && i < |items|
      modifies this`items
      ensures Valid() && items == old(items)[i := Bucket(old(items)[i].hash, pos)]
    {
      items := items[i := items[i].(pos := pos)];
    }

    method Retain(f: nat -> Option<nat>)
      requires Valid()
      modifies this
      ensures Valid() && multiset(items) == multiset(FilterMap(f, old(items)))
    {
      var kept := [];
      var i := 0;
      while i < |items|
        invariant i <= |items| && items == old(items) && unchanged(this)
        invariant kept == FilterMap(f, items[..i]) && |kept| <= i
      {
        assert items[..i + 1] == items[..i] + [items[i]];
        FilterMapConcat(f, items[..i], [items[i]]);
        match f(items[i].pos) {
          case None =>
          case Some(p) => kept := kept + [Bucket(items[i].hash, p)];
        }
        i := i + 1;
      }
      assert items[..i] == items;
      items := kept;
    }

    /** Forget everything; the room the occupied buckets took is available again. */
    method Clear()
      requires Valid()
      modifies this
      ensures Valid() && items == [] && growthLeft >= old(|items|)
    {
      if items == [] {
        return;
      }
      items, growthLeft := [], capacity;
    }
  }
}
