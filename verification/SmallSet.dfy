/** Difference and union of ordered sets as lazy iterators (starlark_map/src/small_set.rs). */
module SmallSets {
  import opened Options
  import opened HashValue
  import opened Sequences
  import opened AssocLists
  import opened SmallMaps
  import opened MapEquality

  type SmallSet<T(!new, 0)> = SmallMap<T, ()>

  /** The set holds an element equivalent to `x`. */
  predicate Member<T>(ops: KeyOps<T>, es: AssocList<T, ()>, x: T) {
    Find(KeyQuery(ops, x).eq, es).Some?
  }

  /** The elements of `xs` that are not in `other`, in order. */
  function Missing<T>(ops: KeyOps<T>, xs: seq<T>, other: AssocList<T, ()>): seq<T> {
    if xs == [] then [] else
    (if Member(ops, other, xs[0]) then [] else [xs[0]]) + Missing(ops, xs[1..], other)
  }

  lemma {:induction false} MissingSnoc<T>(ops: KeyOps<T>, xs: seq<T>, x: T, other: AssocList<T, ()>)
    ensures Missing(ops, xs + [x], other) == Missing(ops, xs, other) + if Member(ops, other, x) then [] else [x]
  {
    if xs == [] {
      assert xs + [x] == [x] && [x][1..] == [];
    } else {
      MissingSnoc(ops, xs[1..], x, other);
      assert (xs + [x])[1..] == xs[1..] + [x];
    }
  }

  /** The missing elements among the first `n` are those at certain places, in order. */
  lemma {:induction false} MissingInOrder<T>(ops: KeyOps<T>, xs: seq<T>, other: AssocList<T, ()>, n: nat)
    returns (ks: seq<nat>)
    requires n <= |xs|
    ensures Ascending(ks, n) && |ks| == |Missing(ops, xs[..n], other)|
    ensures forall i :: 0 <= i < |ks| ==> Missing(ops, xs[..n], other)[i] == xs[ks[i]]
    ensures forall j :: 0 <= j < n ==> (j in ks <==> !Member(ops, other, xs[j]))
  {
    ks := [];
    if n > 0 {
      ks := MissingInOrder(ops, xs, other, n - 1);
      MissingSnoc(ops, xs[..n - 1], xs[n - 1], other);
      UpTo(xs, n - 1);
      if !Member(ops, other, xs[n - 1]) {
        ks := ks + [n - 1];
      }
    }
  }

  function SaturatingSub(a: nat, b: nat): nat {
    if a < b then 0 else a - b
  }

  method Contains<T(!new, 0)>(s: SmallSet<T>, x: T) returns (r: bool)
    requires s.Valid()
    ensures r == Member(s.ops, s.List(), x)
  {
    KeyQueryIsLawful(s.ops, x);
    var i := s.GetIndexOfHashedRaw(KeyQuery(s.ops, x));
    r := i.Some?;
  }

  /** The loop of `Difference::next`, from position `start` on. */
  method NextMissing<T(!new, 0)>(source: SmallSet<T>, other: SmallSet<T>, start: nat)
    returns (r: Option<T>, pos: nat)
    requires source.Valid() && other.Valid() && source.ops == other.ops && start <= source.entries.len
    ensures start <= pos <= source.entries.len
    ensures
      var items, others := Keys(source.List()), other.List();
      Missing(source.ops, items[start..], others) ==
      (if r.Some? then [r.value] + Missing(source.ops, items[pos..], others) else [])
    ensures r == None ==> pos == source.entries.len
  {
    hide SmallMap.Valid;
    ghost var items, others := Keys(source.List()), other.List();
    pos := start;
    while pos < source.entries.len
      invariant start <= pos <= source.entries.len == |items|
      invariant Missing(source.ops, items[pos..], others) == Missing(source.ops, items[start..], others)
    {
      var item := source.entries.aaa[pos].0;
      assert item == items[pos];
      assert items[pos..][0] == item && items[pos..][1..] == items[pos + 1..];
      pos := pos + 1;
      var c := Contains(other, item);
      if !c {
        return Some(item), pos;
      }
    }
    r := None;
  }

  /** Iterator over the elements of `source` that are not in `other`. */
  class Difference<T(!new, 0)> {
    const source: SmallSet<T>
    const other: SmallSet<T>
    /** Elements of `source` already visited. */
    var pos: nat

    ghost predicate Valid()
      reads this, source, source.entries, source.entries.aaa, source.entries.bbb, source.index,
            other, other.entries, other.entries.aaa, other.entries.bbb, other.index
    {
      && source.Valid() && other.Valid() && source.ops == other.ops
      && pos <= source.entries.len
    }

    /** Elements not visited yet. */
    ghost function Unvisited(): seq<T>
      requires Valid()
      reads this, source, source.entries, source.entries.aaa, source.entries.bbb, source.index,
            other, other.entries, other.entries.aaa, other.entries.bbb, other.index
    {
      Keys(source.List())[pos..]
    }

    /** What the iterator will still yield. */
    ghost function ToCome(): seq<T>
      requires Valid()
      reads this, source, source.entries, source.entries.aaa, source.entries.bbb, source.index,
            other, other.entries, other.entries.aaa, other.entries.bbb, other.index
    {
      Missing(source.ops, Unvisited(), other.List())
    }

    constructor (source: SmallSet<T>, other: SmallSet<T>)
      requires source.Valid() && other.Valid() && source.ops == other.ops
      ensures Valid() && this.source == source && this.other == other
      ensures ToCome() == Missing(source.ops, Keys(source.List()), other.List())
    {
      this.source := source;
      this.other := other;
      pos := 0;
      new;
      assert Keys(source.List())[0..] == Keys(source.List());
    }

    method Next() returns (r: Option<T>)
      requires Valid()
      modifies this`pos
      ensures Valid() && pos >= old(pos)
      ensures r == None ==> old(ToCome()) == [] && ToCome() == []
      ensures r.Some? ==> old(ToCome()) == [r.value] + ToCome()
    {
      r, pos := NextMissing(source, other, pos);
    }

    /** The bounds are right at every moment of the iteration. */
    method SizeHint() returns (lower: nat, upper: nat)
      requires Valid()
      ensures lower <= |ToCome()| <= upper
      ensures upper == |Unvisited()| && lower == SaturatingSub(|Unvisited()|, |other.List()|)
    {
      var remaining := source.entries.len - pos;
      lower, upper := SaturatingSub(remaining, other.entries.len), remaining;
      MissingCount(source.ops, source.List(), other.List(), pos);
    }
  }

  /** Positions of `xs` whose element is in `other`, and where it is. */
  function Matched<T>(ops: KeyOps<T>, xs: seq<T>, other: AssocList<T, ()>): (r: seq<nat>)
    ensures |r| + |Missing(ops, xs, other)| == |xs|
    ensures forall i :: 0 <= i < |r| ==> r[i] < |other|
  {
    if xs == [] then [] else
    var i := Find(KeyQuery(ops, xs[0]).eq, other);
    (if i.Some? then [i.value] else []) + Matched(ops, xs[1..], other)
  }

  /** Some element of `xs` is found at place `p` of `other`. */
  ghost predicate FoundAt<T>(ops: KeyOps<T>, xs: seq<T>, other: AssocList<T, ()>, p: nat) {
    p < |other| && exists k :: 0 <= k < |xs| && ops.eq(xs[k], other[p].0)
  }

  /** Elements with pairwise different keys are matched in different places. */
  lemma {:induction false} MatchedDistinct<T(!new)>(ops: KeyOps<T>, xs: seq<T>, other: AssocList<T, ()>)
    requires Lawful(ops)
    requires forall i, j :: 0 <= i < j < |xs| ==> !ops.eq(xs[i], xs[j])
    ensures var r := Matched(ops, xs, other);
      && AllDifferent(r)
      && (forall p | p in r :: FoundAt(ops, xs, other, p))
  {
    if xs != [] {
      var rest := Matched(ops, xs[1..], other);
      MatchedDistinct(ops, xs[1..], other);
      forall p | p in rest ensures FoundAt(ops, xs, other, p) && !ops.eq(xs[0], other[p].0) {
        FoundInRest(ops, xs, other, p);
      }
      hide Lawful;
      match Find(KeyQuery(ops, xs[0]).eq, other)
      case None =>
        assert Matched(ops, xs, other) == rest;
      case Some(p) =>
        assert ops.eq(xs[0], other[p].0) && FoundAt(ops, xs, other, p);
        hide FoundAt;
        assert Matched(ops, xs, other) == [p] + rest && p !in rest;
    }
  }

  /** A place found by a later element is not one of the first element's. */
  lemma FoundInRest<T(!new)>(ops: KeyOps<T>, xs: seq<T>, other: AssocList<T, ()>, p: nat)
    requires Lawful(ops) && xs != [] && FoundAt(ops, xs[1..], other, p)
    requires forall j :: 0 < j < |xs| ==> !ops.eq(xs[0], xs[j])
    ensures FoundAt(ops, xs, other, p) && !ops.eq(xs[0], other[p].0)
  {
    var k :| 0 <= k < |xs[1..]| && ops.eq(xs[1..][k], other[p].0);
    assert ops.eq(xs[k + 1], other[p].0) && ops.eq(other[p].0, xs[k + 1]) && !ops.eq(xs[0], xs[k + 1]);
  }

  /** Pigeonhole: the unvisited elements found in `other` are at most as many as `other` holds. */
  lemma MissingCount<T(!new)>(ops: KeyOps<T>, es: AssocList<T, ()>, other: AssocList<T, ()>, pos: nat)
    requires Lawful(ops) && Unique(ops, es) && pos <= |es|
    ensures var m := |Missing(ops, Keys(es)[pos..], other)|;
      SaturatingSub(|es| - pos, |other|) <= m <= |es| - pos
  {
    var xs := Keys(es)[pos..];
    forall i, j | 0 <= i < j < |xs| ensures !ops.eq(xs[i], xs[j]) {
      assert xs[i] == es[pos + i].0 && xs[j] == es[pos + j].0;
    }
    MatchedDistinct(ops, xs, other);
    DistinctFit(Matched(ops, xs, other), |other|);
  }

  /** `self.iter().chain(other.difference(self))`. */
  class Union<T(!new, 0)> {
    const left: SmallSet<T>
    const rest: Difference<T>
    /** Elements of `left` already yielded. */
    var pos: nat

    ghost predicate Valid()
      reads this, left, left.entries, left.entries.aaa, left.entries.bbb, left.index, rest,
            rest.source, rest.source.entries, rest.source.entries.aaa, rest.source.entries.bbb, rest.source.index,
            rest.other, rest.other.entries, rest.other.entries.aaa, rest.other.entries.bbb, rest.other.index
    {
      && left.Valid() && rest.Valid() && pos <= left.entries.len
      && rest.other == left
    }

    ghost function ToCome(): seq<T>
      requires Valid()
      reads this, left, left.entries, left.entries.aaa, left.entries.bbb, left.index, rest,
            rest.source, rest.source.entries, rest.source.entries.aaa, rest.source.entries.bbb, rest.source.index,
            rest.other, rest.other.entries, rest.other.entries.aaa, rest.other.entries.bbb, rest.other.index
    {
      Keys(left.List())[pos..] + rest.ToCome()
    }

    constructor (left: SmallSet<T>, right: SmallSet<T>)
      requires left.Valid() && right.Valid() && left.ops == right.ops
      ensures Valid() && fresh(rest) && this.left == left && rest.source == right
      ensures ToCome() == Keys(left.List()) + Missing(left.ops, Keys(right.List()), left.List())
    {
      this.left := left;
      this.rest := new Difference(right, left);
      pos := 0;
      new;
      assert Keys(left.List())[0..] == Keys(left.List());
    }

    method Next() returns (r: Option<T>)
      requires Valid()
      modifies this`pos, rest`pos
      ensures Valid()
      ensures r == None ==> old(ToCome()) == [] && ToCome() == []
      ensures r.Some? ==> old(ToCome()) == [r.value] + ToCome()
    {
      hide SmallMap.Valid;
      ghost var items := Keys(left.List());
      if pos < left.entries.len {
        r := Some(left.entries.aaa[pos].0);
        assert r.value == items[pos] && items[pos..] == [r.value] + items[pos + 1..];
        assert items[pos..] + rest.ToCome() == [r.value] + (items[pos + 1..] + rest.ToCome());
        pos := pos + 1;
      } else {
        assert items[pos..] == [];
        r := rest.Next();
      }
    }
  }

  /** An element is in the list, up to equivalence. */
  ghost predicate Occurs<T>(ops: KeyOps<T>, x: T, xs: seq<T>) {
    exists i :: 0 <= i < |xs| && ops.eq(x, xs[i])
  }

  lemma {:induction false} MissingElements<T(!new)>(ops: KeyOps<T>, xs: seq<T>, other: AssocList<T, ()>, x: T)
    requires Lawful(ops)
    ensures Occurs(ops, x, Missing(ops, xs, other)) <==> Occurs(ops, x, xs) && !Member(ops, other, x)
  {
    if xs != [] {
      MissingElements(ops, xs[1..], other, x);
      var m, m' := Missing(ops, xs, other), Missing(ops, xs[1..], other);
      if ops.eq(x, xs[0]) {
        MemberCongruent(ops, other, x, xs[0]);
      }
      assert Occurs(ops, x, xs) <==> ops.eq(x, xs[0]) || Occurs(ops, x, xs[1..]) by {
        OccursCons(ops, x, xs[0], xs[1..]);
        assert xs == [xs[0]] + xs[1..];
      }
      if Member(ops, other, xs[0]) {
        assert m == m';
      } else {
        assert m == [xs[0]] + m';
        OccursCons(ops, x, xs[0], m');
      }
    }
  }

  lemma OccursCons<T>(ops: KeyOps<T>, x: T, y: T, ys: seq<T>)
    ensures Occurs(ops, x, [y] + ys) <==> ops.eq(x, y) || Occurs(ops, x, ys)
  {
    var s := [y] + ys;
    assert s[0] == y;
    assert forall i :: 0 <= i < |ys| ==> s[i + 1] == ys[i];
    assert forall i :: 0 < i < |s| ==> s[i] == ys[i - 1];
  }

  lemma MemberCongruent<T(!new)>(ops: KeyOps<T>, es: AssocList<T, ()>, x: T, y: T)
    requires Lawful(ops) && ops.eq(x, y)
    ensures Member(ops, es, x) <==> Member(ops, es, y)
  {
    assert ops.eq(y, x);
    forall i | 0 <= i < |es| ensures ops.eq(x, es[i].0) <==> ops.eq(y, es[i].0) {
    }
  }

  lemma MemberOccurs<T(!new)>(ops: KeyOps<T>, es: AssocList<T, ()>, x: T)
    ensures Member(ops, es, x) <==> Occurs(ops, x, Keys(es))
  {
    if Member(ops, es, x) {
      assert ops.eq(x, Keys(es)[Find(KeyQuery(ops, x).eq, es).value]);
    }
    if Occurs(ops, x, Keys(es)) {
      var i :| 0 <= i < |Keys(es)| && ops.eq(x, Keys(es)[i]);
      assert KeyQuery(ops, x).eq(es[i].0);
    }
  }

  ghost predicate Distinct<T>(ops: KeyOps<T>, xs: seq<T>) {
    forall i, j :: 0 <= i < |xs| && 0 <= j < |xs| && i != j ==> !ops.eq(xs[i], xs[j])
  }

  lemma {:induction false} MissingDistinct<T(!new)>(ops: KeyOps<T>, xs: seq<T>, other: AssocList<T, ()>)
    requires Lawful(ops) && Distinct(ops, xs)
    ensures Distinct(ops, Missing(ops, xs, other))
  {
    if xs != [] {
      MissingDistinct(ops, xs[1..], other);
      MissingElements(ops, xs[1..], other, xs[0]);
      var m' := Missing(ops, xs[1..], other);
      forall i | 0 <= i < |m'| ensures !ops.eq(xs[0], m'[i]) && !ops.eq(m'[i], xs[0]) {
        assert !Occurs(ops, xs[0], m');
      }
    }
  }

  /** A union yields each element of either set exactly once: this set's in its order, then the other's new ones
      in theirs. */
  lemma UnionYieldsOnce<T(!new)>(ops: KeyOps<T>, a: AssocList<T, ()>, b: AssocList<T, ()>)
    requires Lawful(ops) && Unique(ops, a) && Unique(ops, b)
    ensures var u := Keys(a) + Missing(ops, Keys(b), a);
      && Distinct(ops, u)
      && forall x :: Occurs(ops, x, u) <==> Member(ops, a, x) || Member(ops, b, x)
  {
    var m := Missing(ops, Keys(b), a);
    var u := Keys(a) + m;
    MissingDistinct(ops, Keys(b), a);
    forall i, j | 0 <= i < |a| && 0 <= j < |m| ensures !ops.eq(Keys(a)[i], m[j]) && !ops.eq(m[j], Keys(a)[i]) {
      MissingElements(ops, Keys(b), a, m[j]);
      MemberOccurs(ops, a, m[j]);
      assert ops.eq(m[j], m[j]);
      assert Occurs(ops, m[j], m);
    }
    forall x ensures Occurs(ops, x, u) <==> Member(ops, a, x) || Member(ops, b, x) {
      MissingElements(ops, Keys(b), a, x);
      MemberOccurs(ops, a, x);
      MemberOccurs(ops, b, x);
      OccursConcat(ops, x, Keys(a), m);
    }
  }

  lemma OccursConcat<T>(ops: KeyOps<T>, x: T, xs: seq<T>, ys: seq<T>)
    ensures Occurs(ops, x, xs + ys) <==> Occurs(ops, x, xs) || Occurs(ops, x, ys)
  {
    var s := xs + ys;
    assert forall i :: 0 <= i < |xs| ==> s[i] == xs[i];
    assert forall i :: 0 <= i < |ys| ==> s[|xs| + i] == ys[i];
    assert forall i :: |xs| <= i < |s| ==> s[i] == ys[i - |xs|];
  }
}
