/** Insertion sort as used for short columns (starlark_map/src/sorting/insertion.rs), stated on
    sequences, together with what any stable sort promises. */
module Sorting {
  import opened Options
  import opened Sequences

  /** A comparison that may also panic. */
  datatype Comparison = Less | Equal | Greater | Panics

  type Comparator<!T> = (T, T) -> Comparison

  /** What `Ord` demands of its implementations, on the elements of `s`. */
  ghost predicate TotalOrder<T>(cmp: Comparator<T>, s: set<T>) {
    && (forall a, b | a in s && b in s :: cmp(a, b) != Panics)
    && (forall a, b | a in s && b in s :: cmp(a, b) == Less <==> cmp(b, a) == Greater)
    && (forall a, b, c | a in s && b in s && c in s ::
          cmp(a, b) != Greater && cmp(b, c) != Greater ==> cmp(a, c) != Greater)
  }

  ghost predicate SortedBy<T>(cmp: Comparator<T>, s: seq<T>) {
    forall i, j :: 0 <= i < j < |s| ==> cmp(s[i], s[j]) != Greater
  }

  function Elements<T>(s: seq<T>): set<T> {
    set x | x in s
  }

  /** The elements of `s` that compare equal to `k`, in order. */
  function Class<T>(cmp: Comparator<T>, k: T, s: seq<T>): seq<T> {
    if s == [] then [] else (if cmp(s[0], k) == Equal then [s[0]] else []) + Class(cmp, k, s[1..])
  }

  /** `d` is a reordering of `c` that never swaps two equal elements. */
  ghost predicate StableReordering<T>(cmp: Comparator<T>, c: seq<T>, d: seq<T>) {
    && multiset(d) == multiset(c)
    && forall k | k in c :: Class(cmp, k, d) == Class(cmp, k, c)
  }

  /** Some comparison of two of the elements panics. */
  ghost predicate Panicking<T>(cmp: Comparator<T>, c: seq<T>) {
    exists x, y :: x in c && y in c && cmp(x, y) == Panics
  }

  /** Every comparison of the element at `k` with another one panics. */
  ghost predicate PoisonedAt<T>(cmp: Comparator<T>, c: seq<T>, k: nat) {
    k < |c| && forall j :: 0 <= j < |c| && j != k ==> cmp(c[k], c[j]) == Panics && cmp(c[j], c[k]) == Panics
  }

  /** There is something to compare, and some element cannot be. */
  ghost predicate Poisoned<T>(cmp: Comparator<T>, c: seq<T>) {
    |c| > 1 && exists k: nat :: PoisonedAt(cmp, c, k)
  }

  /** A sort of `c` ended with `d`: under a lawful order it completed, sorted, and was stable.  It stopped only
      because a comparison panicked, and cannot have completed if some element cannot be compared at all. */
  ghost predicate SortOutcome<T>(cmp: Comparator<T>, c: seq<T>, completed: bool, d: seq<T>) {
    && (TotalOrder(cmp, Elements(c)) ==> completed && SortedBy(cmp, d) && StableReordering(cmp, c, d))
    && (!completed ==> Panicking(cmp, c))
    && (Poisoned(cmp, c) ==> !completed)
  }

  /** The first place, at or after `i`, whose element is not in order with the one before it. */
  function FirstDisorder<T>(cmp: Comparator<T>, s: seq<T>, i: nat): (k: nat)
    requires 0 < i
    ensures i <= k
    ensures forall j :: i <= j < k && j < |s| ==> cmp(s[j - 1], s[j]) in {Less, Equal}
    ensures k < |s| ==> cmp(s[k - 1], s[k]) !in {Less, Equal}
    decreases |s| - i
  {
    if i < |s| && cmp(s[i - 1], s[i]) in {Less, Equal} then FirstDisorder(cmp, s, i + 1) else i
  }

  /** Move the element at `b` to `a`, shifting `a..b` right by one. */
  function SwapShift<T>(s: seq<T>, a: nat, b: nat): (r: seq<T>)
    requires a <= b < |s|
    ensures |r| == |s| && r[a] == s[b]
    ensures forall i :: 0 <= i < |s| && !(a <= i <= b) ==> r[i] == s[i]
    ensures forall i :: a < i <= b ==> r[i] == s[i - 1]
  {
    s[..a] + [s[b]] + s[a..b] + s[b + 1..]
  }

  lemma ClassCons<T>(cmp: Comparator<T>, k: T, x: T, s: seq<T>)
    ensures Class(cmp, k, [x] + s) == (if cmp(x, k) == Equal then [x] else []) + Class(cmp, k, s)
  {
    assert ([x] + s)[1..] == s;
  }

  lemma {:induction false} ClassConcat<T>(cmp: Comparator<T>, k: T, s: seq<T>, t: seq<T>)
    ensures Class(cmp, k, s + t) == Class(cmp, k, s) + Class(cmp, k, t)
    decreases |s|
  {
    if s == [] {
      assert s + t == t;
    } else {
      var x, s' := HeadAndTail(s);
      ClassConcat(cmp, k, s', t);
      ClassCons(cmp, k, x, s');
      ClassCons(cmp, k, x, s' + t);
      hide Class;
      Associate([x], s', t);
      Associate(if cmp(x, k) == Equal then [x] else [], Class(cmp, k, s'), Class(cmp, k, t));
    }
  }

  lemma {:induction false} ClassEmpty<T>(cmp: Comparator<T>, k: T, s: seq<T>)
    requires forall i :: 0 <= i < |s| ==> cmp(s[i], k) != Equal
    ensures Class(cmp, k, s) == []
    decreases |s|
  {
    if s != [] {
      assert forall i :: 0 <= i < |s[1..]| ==> s[1..][i] == s[i + 1];
      ClassEmpty(cmp, k, s[1..]);
    }
  }

  /** One insertion keeps the reordering stable, provided it only jumps over greater elements. */
  lemma SwapShiftIsStable<T>(cmp: Comparator<T>, c: seq<T>, s: seq<T>, a: nat, b: nat)
    requires a <= b < |s|
    requires StableReordering(cmp, c, s) && TotalOrder(cmp, Elements(c))
    requires forall i :: a <= i < b ==> cmp(s[b], s[i]) == Less
    ensures StableReordering(cmp, c, SwapShift(s, a, b))
  {
    SwapShiftMultiset(s, a, b);
    SameElements(s, c);
    forall k | k in c ensures Class(cmp, k, SwapShift(s, a, b)) == Class(cmp, k, c) {
      assert k in Elements(c);
      ClassAfterSwapShift(cmp, k, s, a, b);
    }
  }

  lemma ClassAfterSwapShift<T>(cmp: Comparator<T>, k: T, s: seq<T>, a: nat, b: nat)
    requires a <= b < |s| && k in Elements(s) && TotalOrder(cmp, Elements(s))
    requires forall i :: a <= i < b ==> cmp(s[b], s[i]) == Less
    ensures Class(cmp, k, SwapShift(s, a, b)) == Class(cmp, k, s)
  {
    var mid, x, last := s[a..b], [s[b]], s[b + 1..];
    assert Class(cmp, k, mid + x) == Class(cmp, k, x + mid) by {
      if cmp(s[b], k) == Equal {
        forall i | 0 <= i < |mid| ensures cmp(mid[i], k) != Equal {
          GreaterIsNotEqual(cmp, Elements(s), s[b], s[a + i], k);
        }
        ClassEmpty(cmp, k, mid);
      } else {
        ClassEmpty(cmp, k, x);
      }
      ClassConcat(cmp, k, mid, x);
      ClassConcat(cmp, k, x, mid);
    }
    ClassSplice(cmp, k, s[..a], mid + x, x + mid, last);
    SwapShiftParts(s, a, b);
  }

  lemma SwapShiftParts<T>(s: seq<T>, a: nat, b: nat)
    requires a <= b < |s|
    ensures s[..a] + (s[a..b] + [s[b]]) + s[b + 1..] == s
    ensures s[..a] + ([s[b]] + s[a..b]) + s[b + 1..] == SwapShift(s, a, b)
  {
    assert s[..a] + ([s[b]] + s[a..b]) == s[..a] + [s[b]] + s[a..b];
  }

  lemma GreaterIsNotEqual<T>(cmp: Comparator<T>, e: set<T>, x: T, m: T, k: T)
    requires TotalOrder(cmp, e) && x in e && m in e && k in e
    requires cmp(x, m) == Less && cmp(x, k) == Equal
    ensures cmp(m, k) != Equal
  {
    assert cmp(k, x) != Greater;
    assert cmp(m, x) == Greater;
  }

  lemma ClassSplice<T>(cmp: Comparator<T>, k: T, p: seq<T>, m: seq<T>, n: seq<T>, q: seq<T>)
    requires Class(cmp, k, m) == Class(cmp, k, n)
    ensures Class(cmp, k, p + m + q) == Class(cmp, k, p + n + q)
  {
    ClassConcat(cmp, k, p + m, q);
    ClassConcat(cmp, k, p + n, q);
    ClassConcat(cmp, k, p, m);
    ClassConcat(cmp, k, p, n);
  }

  lemma SwapShiftMultiset<T>(s: seq<T>, a: nat, b: nat)
    requires a <= b < |s|
    ensures multiset(SwapShift(s, a, b)) == multiset(s)
  {
    assert s == s[..a] + s[a..b] + [s[b]] + s[b + 1..];
  }

  lemma SameElements<T>(s: seq<T>, t: seq<T>)
    requires multiset(s) == multiset(t)
    ensures Elements(s) == Elements(t)
  {
    forall x ensures x in s <==> x in t {
      assert x in s <==> x in multiset(s);
      assert x in t <==> x in multiset(t);
    }
  }

  /** The prefix stays sorted when its next element is inserted before everything greater. */
  lemma InsertionSorted<T>(cmp: Comparator<T>, s: seq<T>, a: nat, b: nat)
    requires a <= b < |s| && SortedBy(cmp, s[..b]) && TotalOrder(cmp, Elements(s))
    requires forall i :: a <= i < b ==> cmp(s[b], s[i]) == Less
    requires a > 0 ==> cmp(s[b], s[a - 1]) != Less
    ensures SortedBy(cmp, SwapShift(s, a, b)[..b + 1])
  {
    var r := SwapShift(s, a, b);
    assert forall i :: 0 <= i < |s| ==> s[i] in Elements(s);
    forall i, j | 0 <= i < j < b + 1 ensures cmp(r[i], r[j]) != Greater {
      if j == a {
        assert cmp(s[a - 1], s[b]) != Greater;
        assert i < a - 1 ==> cmp(s[..b][i], s[..b][a - 1]) != Greater;
      } else if i == a {
        assert r[j] == s[j - 1];
      } else {
        var i' := if i < a then i else i - 1;
        var j' := if j < a then j else j - 1;
        assert cmp(s[..b][i'], s[..b][j']) != Greater;
      }
    }
  }

  /** A sort of `c` that has dealt with the first `i` elements, leaving `d`. */
  ghost predicate SortedSoFar<T>(cmp: Comparator<T>, c: seq<T>, d: seq<T>, i: nat)
    ensures SortedSoFar(cmp, c, d, i) ==> i <= |d| == |c| && multiset(d) == multiset(c)
  {
    && i <= |d| == |c|
    && multiset(d) == multiset(c)
    && (TotalOrder(cmp, Elements(c)) ==> SortedBy(cmp, d[..i]) && StableReordering(cmp, c, d))
  }

  /** The insertion point of the element at `i`, if no comparison panicked on the way to it. */
  ghost predicate InsertionPoint<T>(cmp: Comparator<T>, d: seq<T>, i: nat, p: nat)
    requires i < |d|
  {
    && p <= i
    && (forall k :: p <= k < i ==> cmp(d[i], d[k]) == Less)
    && (p > 0 ==> cmp(d[i], d[p - 1]) != Less)
  }

  lemma InsertStep<T>(cmp: Comparator<T>, c: seq<T>, d: seq<T>, i: nat, p: nat)
    requires SortedSoFar(cmp, c, d, i) && i < |d| && InsertionPoint(cmp, d, i, p)
    ensures SortedSoFar(cmp, c, SwapShift(d, p, i), i + 1)
  {
    SwapShiftMultiset(d, p, i);
    if TotalOrder(cmp, Elements(c)) {
      SameElements(d, c);
      SwapShiftIsStable(cmp, c, d, p, i);
      InsertionSorted(cmp, d, p, i);
    }
  }

  /** Scanning down from `p`: where the element at `i` belongs; `None` if a comparison panics on the way. */
  function PointFor<T>(cmp: Comparator<T>, d: seq<T>, i: nat, p: nat): (r: Option<nat>)
    requires p <= i < |d|
    ensures r.Some? ==> r.value <= p
    ensures r == None ==> exists j :: 0 <= j < p && cmp(d[i], d[j]) == Panics
  {
    if p == 0 then Some(0)
    else
      match cmp(d[i], d[p - 1])
      case Less => PointFor(cmp, d, i, p - 1)
      case Panics => None
      case _ => Some(p)
  }

  /** What insertion sort does from its `i`th round on: whether it completes, and what it leaves. */
  function InsertionRun<T>(cmp: Comparator<T>, d: seq<T>, i: nat): (bool, seq<T>)
    decreases |d| - i
  {
    if i >= |d| then (true, d)
    else
      match PointFor(cmp, d, i, i)
      case None => (false, d)
      case Some(p) => InsertionRun(cmp, SwapShift(d, p, i), i + 1)
  }

  /** Insertion sort completes unless a comparison panics. */
  lemma {:induction false} RunCompletes<T>(cmp: Comparator<T>, d: seq<T>, i: nat)
    requires !Panicking(cmp, d)
    ensures InsertionRun(cmp, d, i).0
    decreases |d| - i
  {
    hide Panicking, PointFor, SwapShift;
    if i < |d| {
      CalmPoint(cmp, d, i);
      var p := PointFor(cmp, d, i, i).value;
      StaysCalm(cmp, d, p, i);
      RunCompletes(cmp, SwapShift(d, p, i), i + 1);
    }
  }

  lemma CalmPoint<T>(cmp: Comparator<T>, d: seq<T>, i: nat)
    requires !Panicking(cmp, d) && i < |d|
    ensures PointFor(cmp, d, i, i).Some?
  {
    hide PointFor;
    forall j | 0 <= j < i ensures cmp(d[i], d[j]) != Panics {
      assert d[i] in d && d[j] in d;
    }
  }

  lemma StaysCalm<T>(cmp: Comparator<T>, d: seq<T>, p: nat, i: nat)
    requires p <= i < |d| && !Panicking(cmp, d)
    ensures !Panicking(cmp, SwapShift(d, p, i))
  {
    SwapShiftMultiset(d, p, i);
    hide SwapShift;
    assert forall x :: x in SwapShift(d, p, i) ==> x in multiset(d) && x in d;
  }

  /** It stops at the latest when it comes to an element that cannot be compared. */
  lemma {:induction false} RunStops<T>(cmp: Comparator<T>, d: seq<T>, i: nat, k: nat)
    requires 0 < i < |d| && PoisonedAt(cmp, d, k) && (i <= k || i == 1)
    ensures !InsertionRun(cmp, d, i).0
    decreases |d| - i
  {
    if i >= k {
      PoisonStops(cmp, d, i, k);
    } else if PointFor(cmp, d, i, i).Some? {
      var p := PointFor(cmp, d, i, i).value;
      StaysPoisoned(cmp, d, p, i, k);
      hide PoisonedAt, SwapShift, PointFor;
      RunStops(cmp, SwapShift(d, p, i), i + 1, k);
    }
  }

  lemma PoisonStops<T>(cmp: Comparator<T>, d: seq<T>, i: nat, k: nat)
    requires 0 < i < |d| && PoisonedAt(cmp, d, k) && (i == k || (i == 1 && k == 0))
    ensures PointFor(cmp, d, i, i) == None
  {
    assert cmp(d[i], d[i - 1]) == Panics;
  }

  lemma RunUnfolds<T>(cmp: Comparator<T>, d: seq<T>, i: nat)
    requires i < |d|
    ensures InsertionRun(cmp, d, i) ==
      match PointFor(cmp, d, i, i)
      case None => (false, d)
      case Some(p) => InsertionRun(cmp, SwapShift(d, p, i), i + 1)
  {
  }

  lemma StaysPoisoned<T>(cmp: Comparator<T>, d: seq<T>, p: nat, i: nat, k: nat)
    requires p <= i < k && PoisonedAt(cmp, d, k)
    ensures PoisonedAt(cmp, SwapShift(d, p, i), k)
  {
    var r := SwapShift(d, p, i);
    forall j | 0 <= j < |r| && j != k ensures cmp(r[k], r[j]) == Panics && cmp(r[j], r[k]) == Panics {
      var from := if j == p then i else if p < j <= i then j - 1 else j;
      assert r[j] == d[from];
    }
  }

  lemma PanicMeansUnlawful<T>(cmp: Comparator<T>, c: seq<T>, d: seq<T>, i: nat, j: nat)
    requires multiset(d) == multiset(c) && i < |d| && j < |d| && cmp(d[i], d[j]) == Panics
    ensures SortOutcome(cmp, c, false, d)
  {
    SameElements(d, c);
    assert d[i] in Elements(d) && d[j] in Elements(d);
    assert d[i] in c && d[j] in c;
  }

  lemma SortedAtFirst<T>(cmp: Comparator<T>, c: seq<T>)
    ensures c != [] ==> SortedSoFar(cmp, c, c, 1)
    ensures c == [] ==> SortOutcome(cmp, c, true, c) && InsertionRun(cmp, c, 1) == (true, c)
  {
  }

  lemma SortedWhenDone<T>(cmp: Comparator<T>, c: seq<T>, d: seq<T>)
    requires SortedSoFar(cmp, c, d, |d|) && InsertionRun(cmp, d, |d|) == InsertionRun(cmp, c, 1)
    ensures SortOutcome(cmp, c, true, d) && InsertionRun(cmp, c, 1) == (true, d)
  {
    assert d[..|d|] == d;
    if Poisoned(cmp, c) {
      var k: nat :| PoisonedAt(cmp, c, k);
      RunStops(cmp, c, 1, k);
    }
  }

  /** Stand-in for the standard library's stable sort on an owned list. */
  method StableSort<T>(s: seq<T>, cmp: Comparator<T>) returns (completed: bool, d: seq<T>)
    ensures multiset(d) == multiset(s)
    ensures SortOutcome(cmp, s, completed, d)
  {
    hide SortedSoFar, SortOutcome, InsertionRun, InsertionPoint;
    completed, d := true, s;
    SortedAtFirst(cmp, s);
    if s == [] {
      return;
    }
    var i := 1;
    while i < |s|
      invariant 1 <= i <= |s| == |d|
      invariant SortedSoFar(cmp, s, d, i) && InsertionRun(cmp, d, i) == InsertionRun(cmp, s, 1)
    {
      RunUnfolds(cmp, d, i);
      var p := PointFor(cmp, d, i, i);
      if p == None {
        ghost var j: nat :| j < i && cmp(d[i], d[j]) == Panics;
        PanicMeansUnlawful(cmp, s, d, i, j);
        completed := false;
        return;
      }
      PointIsInsertionPoint(cmp, d, i, i);
      InsertStep(cmp, s, d, i, p.value);
      d := SwapShift(d, p.value, i);
      i := i + 1;
    }
    SortedWhenDone(cmp, s, d);
  }

  lemma {:induction false} PointIsInsertionPoint<T>(cmp: Comparator<T>, d: seq<T>, i: nat, p: nat)
    requires p <= i < |d| && PointFor(cmp, d, i, p).Some?
    requires forall k :: p <= k < i ==> cmp(d[i], d[k]) == Less
    ensures InsertionPoint(cmp, d, i, PointFor(cmp, d, i, p).value)
  {
    if p > 0 && cmp(d[i], d[p - 1]) == Less {
      PointIsInsertionPoint(cmp, d, i, p - 1);
    }
  }
}
