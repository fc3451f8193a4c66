/** Two-column growable storage: pairs `(A, B)` whose halves live in separate buffers
    (starlark_map/src/vec2.rs). */
module Vec2Storage {
  import opened Options
  import opened Sequences
  import opened Sorting

  /** `sort_by` uses insertion sort up to this length. */
  const MAX_INSERTION := 20

  /** The two columns read as one list of pairs. */
  function Zip<A, B>(a: seq<A>, b: seq<B>): (z: seq<(A, B)>)
    requires |a| == |b|
    ensures |z| == |a|
    ensures forall i :: 0 <= i < |z| ==> z[i] == (a[i], b[i])
  {
    seq(|a|, i requires 0 <= i < |a| => (a[i], b[i]))
  }

  /** What one call of the closure passed to `retain` does.  The closure may rewrite the
      element it is shown; it may panic; and dropping a rejected element may panic too. */
  datatype Step<+A, +B> =
    | Keep(a: A, b: B)
    | Drop(dropPanics: bool)
    | Panic(a: A, b: B)
  {
    predicate Stops() {
      Panic? || (Drop? && dropPanics)
    }
  }

  /** An arbitrary `FnMut`: its answer may depend on how often it was called before. */
  type Closure<!A, !B> = (nat, A, B) -> Step<A, B>

  /** The first call, at or after call `k`, that panics; `|c|` if none does. */
  function StopAt<A, B>(f: Closure<A, B>, c: seq<(A, B)>, k: nat): (n: nat)
    requires k <= |c|
    ensures k <= n <= |c|
    decreases |c| - k
  {
    if k == |c| || f(k, c[k].0, c[k].1).Stops() then k else StopAt(f, c, k + 1)
  }

  /** The elements among the first `n` that the closure keeps, as it rewrote them, in order. */
  function Kept<A, B>(f: Closure<A, B>, c: seq<(A, B)>, n: nat): (r: seq<(A, B)>)
    requires n <= |c|
    ensures |r| <= n
  {
    if n == 0 then [] else
    var s := f(n - 1, c[n - 1].0, c[n - 1].1);
    Kept(f, c, n - 1) + if s.Keep? then [(s.a, s.b)] else []
  }

  /** What the guard moves down when the loop stopped at call `n`: the element a panicking closure
      was looking at, but not one whose drop panicked, and everything after it. */
  function Rest<A, B>(f: Closure<A, B>, c: seq<(A, B)>, n: nat): seq<(A, B)>
    requires n <= |c|
  {
    if n == |c| then [] else
    var s := f(n, c[n].0, c[n].1);
    (if s.Panic? then [(s.a, s.b)] else []) + c[n + 1..]
  }

  /** What `retain` leaves behind, panic or not: the kept part of the processed prefix,
      then the untouched suffix. */
  function Retained<A, B>(f: Closure<A, B>, c: seq<(A, B)>): seq<(A, B)> {
    var n := StopAt(f, c, 0);
    Kept(f, c, n) + Rest(f, c, n)
  }

  function Max(x: nat, y: nat): nat {
    if x < y then y else x
  }

  /** Which drops panic: of elements of the first column, and of the second. */
  datatype DropOf<!A, !B> = DropOf(first: A -> bool, second: B -> bool)

  ghost predicate DropPanics<A, B>(drop: DropOf<A, B>, c: seq<(A, B)>) {
    exists i :: 0 <= i < |c| && (drop.first(c[i].0) || drop.second(c[i].1))
  }

  /** `drop_in_place` on both columns. */
  method DropAll<A, B>(drop: DropOf<A, B>, a: seq<A>, b: seq<B>) returns (completed: bool)
    requires |a| == |b|
    ensures completed <==> !DropPanics(drop, Zip(a, b))
  {
    completed := true;
    var i := 0;
    while i < |a|
      invariant i <= |a|
      invariant completed <==> forall k :: 0 <= k < i ==> !drop.first(a[k]) && !drop.second(b[k])
    {
      if drop.first(a[i]) || drop.second(b[i]) {
        completed := false;
      }
      i := i + 1;
    }
    assert forall k :: 0 <= k < |a| ==> Zip(a, b)[k] == (a[k], b[k]);
  }

  class Vec2<A(0), B(0)> {
    var aaa: array<A>
    var bbb: array<B>
    var len: nat
    /** A drop panicked in `Clear`: the first `len` elements have been dropped and must not be used again. */
    ghost var gone: bool
    /** Elements copied by `ReserveSlow` over the life of this object. */
    ghost var moved: nat
    /** 8, 4 or 1, by the size of a pair. */
    const minNonZeroCap: nat

    ghost predicate Valid()
      reads this
    {
      && aaa as object != bbb as object
      && aaa.Length == bbb.Length
      && len <= aaa.Length
      && 0 < minNonZeroCap
      && !gone
    }

    ghost function Repr(): set<object>
      reads this
    {
      {this, aaa, bbb}
    }

    ghost function Contents(): (c: seq<(A, B)>)
      requires Valid()
      reads this, aaa, bbb
      ensures |c| == len
    {
      Zip(aaa[..len], bbb[..len])
    }

    constructor WithCapacity(cap: nat, minNonZeroCap: nat)
      requires 0 < minNonZeroCap
      ensures Valid() && fresh(Repr())
      ensures Contents() == [] && aaa.Length == cap && moved == 0
      ensures this.minNonZeroCap == minNonZeroCap
    {
      this.minNonZeroCap := minNonZeroCap;
      aaa := new A[cap];
      bbb := new B[cap];
      len := 0;
      moved := 0;
      gone := false;
    }

    method ReserveSlow(additional: nat)
      requires Valid() && aaa.Length - len < additional
      modifies this
      ensures Valid() && fresh(aaa) && fresh(bbb)
      ensures Contents() == old(Contents())
      ensures aaa.Length == Max(Max(len + additional, minNonZeroCap), 2 * old(aaa.Length))
      ensures moved == old(moved) + len
    {
      var requiredCap := len + additional;
      var newCap := Max(requiredCap, minNonZeroCap);
      newCap := Max(newCap, aaa.Length * 2);
      var newA := new A[newCap];
      var newB := new B[newCap];
      forall i | 0 <= i < len { newA[i] := aaa[i]; }
      forall i | 0 <= i < len { newB[i] := bbb[i]; }
      assert newA[..len] == aaa[..len] && newB[..len] == bbb[..len];
      aaa, bbb := newA, newB;
      moved := moved + len;
    }

    method Reserve(additional: nat)
      requires Valid()
      modifies this
      ensures Valid() && fresh(Repr() - old(Repr()))
      ensures Contents() == old(Contents())
      ensures additional <= aaa.Length - len
      ensures old(aaa.Length - len) >= additional ==> aaa == old(aaa) && bbb == old(bbb) && moved == old(moved)
      ensures old(aaa.Length - len) < additional ==>
        aaa.Length == Max(Max(len + additional, minNonZeroCap), 2 * old(aaa.Length)) && moved == old(moved) + len
    {
      if aaa.Length - len < additional {
        ReserveSlow(additional);
      }
    }

    method Push(a: A, b: B)
      requires Valid()
      modifies Repr()
      ensures Valid() && fresh(Repr() - old(Repr()))
      ensures Contents() == old(Contents()) + [(a, b)]
      ensures aaa.Length == CapAfterPush(old(len), old(aaa.Length), minNonZeroCap)
      ensures moved == old(moved) + MovedByPush(old(len), old(aaa.Length))
    {
      Reserve(1);
      aaa[len] := a;
      bbb[len] := b;
      len := len + 1;
      assert Contents() == old(Contents()) + [(a, b)];
    }

    method Remove(index: nat) returns (r: (A, B))
      requires Valid() && index < len
      modifies Repr()
      ensures Valid() && Repr() == old(Repr())
      ensures r == old(Contents())[index]
      ensures Contents() == old(Contents())[..index] + old(Contents())[index + 1..]
    {
      ghost var c := Contents();
      r := (aaa[index], bbb[index]);
      CloseGap(aaa, bbb, index, index + 1, len, c);
      len := len - 1;
      assert Contents() == c[..index] + c[index + 1..];
    }

    /** Drop everything, first one column and then the other, before the length is reset: if a drop panics the
        length still counts elements that are gone. */
    method Clear(drop: DropOf<A, B>) returns (completed: bool)
      requires Valid()
      modifies this`len, this`gone
      ensures completed <==> !DropPanics(drop, old(Contents()))
      ensures completed ==> Valid() && Contents() == []
      ensures !completed ==> gone && len == old(len)
    {
      completed := DropAll(drop, aaa[..len], bbb[..len]);
      if completed {
        len := 0;
      } else {
        gone := true;
      }
    }

    method Pop() returns (r: (A, B))
      requires Valid() && len > 0
      modifies this`len
      ensures Valid()
      ensures old(Contents()) == Contents() + [r]
    {
      r := (aaa[len - 1], bbb[len - 1]);
      len := len - 1;
      assert old(Contents()) == Contents() + [r];
    }

    /** The length is corrected before anything is dropped, so a panicking drop does no harm. */
    method Truncate(n: nat, drop: DropOf<A, B>) returns (completed: bool)
      requires Valid()
      modifies this`len
      ensures Valid()
      ensures Contents() == if n < old(len) then old(Contents())[..n] else old(Contents())
      ensures completed <==> n > old(len) || !DropPanics(drop, old(Contents())[n..])
    {
      completed := true;
      if n <= len {
        var last := len;
        len := n;
        completed := DropAll(drop, aaa[n..last], bbb[n..last]);
        assert Contents() == old(Contents())[..n];
        assert Zip(aaa[n..last], bbb[n..last]) == old(Contents())[n..];
      }
    }

    /** The whole column operation `aaa_mut().reverse(); bbb_mut().reverse()`. */
    method Reverse()
      requires Valid()
      modifies aaa, bbb
      ensures Valid() && Contents() == Reversed(old(Contents()))
    {
      ghost var c := Contents();
      ReverseColumns(aaa, bbb, len, c);
      hide Reversed;
      assert forall i :: 0 <= i < len ==> Contents()[i] == c[len - 1 - i];
    }

    /** Overwrite one element, keeping the rest. */
    method Set(index: nat, a: A)
      requires Valid() && index < len
      modifies aaa
      ensures Valid()
      ensures Contents() == old(Contents())[index := (a, old(Contents())[index].1)]
    {
      aaa[index] := a;
      assert Contents() == old(Contents())[index := (a, old(Contents())[index].1)];
    }

    /** Two-pointer filtering with a guard: whatever stops the loop, the unprocessed suffix
        is moved down behind the kept elements and the length is corrected. */
    method Retain(f: Closure<A, B>) returns (completed: bool)
      requires Valid()
      modifies Repr()
      ensures Valid() && Repr() == old(Repr())
      ensures Contents() == Retained(f, old(Contents()))
      ensures completed <==> StopAt(f, old(Contents()), 0) == old(len)
    {
      ghost var c := Contents();
      var written, next;
      ghost var head, d;
      written, next, completed, head, d := RetainLoop(aaa, bbb, len, f, c);
      OutcomeIsRetained(f, c, completed, next, head, d);
      ghost var e := head + d[written..];
      assert e[..written] == head && e[next..] == d[next..];
      CloseGap(aaa, bbb, written, next, len, e);
      len := written + len - next;
      assert Contents() == head + d[next..];
    }

    /** In-place insertion sort of both columns.  A panicking comparison stops it where it stands. */
    method SortInsertionBy(cmp: Comparator<(A, B)>) returns (completed: bool)
      requires Valid()
      modifies aaa, bbb
      ensures Valid()
      ensures multiset(Contents()) == multiset(old(Contents()))
      ensures (completed, Contents()) == InsertionRun(cmp, old(Contents()), 1)
      ensures SortOutcome(cmp, old(Contents()), completed, Contents())
    {
      ghost var c := Contents();
      ghost var d;
      completed, d := InsertionSortColumns(aaa, bbb, len, cmp, c);
      assert Contents() == d;
    }

    /** Sort by the comparator.  Long vectors are emptied into a list, sorted there and pushed back,
        so a comparison that panics during the sort loses every element of a vector longer than `MAX_INSERTION`. */
    method SortBy(cmp: Comparator<(A, B)>) returns (completed: bool)
      requires Valid()
      modifies Repr()
      ensures Valid() && fresh(Repr() - old(Repr()))
      ensures old(len) <= MAX_INSERTION ==> (completed, Contents()) == InsertionRun(cmp, old(Contents()), 1)
      ensures completed || old(len) <= MAX_INSERTION ==> multiset(Contents()) == multiset(old(Contents()))
      ensures !completed && old(len) > MAX_INSERTION ==> Contents() == []
      ensures SortOutcome(cmp, old(Contents()), completed, Contents())
    {
      if len <= MAX_INSERTION {
        completed := SortInsertionBy(cmp);
        return;
      }
      completed := SortLong(cmp);
    }

    method SortLong(cmp: Comparator<(A, B)>) returns (completed: bool)
      requires Valid()
      modifies Repr()
      ensures Valid() && fresh(Repr() - old(Repr()))
      ensures if completed then multiset(Contents()) == multiset(old(Contents())) else Contents() == []
      ensures SortOutcome(cmp, old(Contents()), completed, Contents())
    {
      var entries := Take();
      var sorted;
      completed, sorted := StableSort(entries, cmp);
      if !completed {
        return;
      }
      PushAll(sorted);
      assert [] + sorted == sorted;
    }

    method PushAll(xs: seq<(A, B)>)
      requires Valid()
      modifies Repr()
      ensures Valid() && fresh(Repr() - old(Repr()))
      ensures Contents() == old(Contents()) + xs
      ensures (aaa.Length, moved) == AfterPushes(old(len), old(aaa.Length), old(moved), minNonZeroCap, |xs|)
    {
      var i := 0;
      while i < |xs|
        invariant i <= |xs| && len == old(len) + i
        invariant Valid() && fresh(Repr() - old(Repr()))
        invariant (aaa.Length, moved) == AfterPushes(old(len), old(aaa.Length), old(moved), minNonZeroCap, i)
        invariant Contents() == old(Contents()) + xs[..i]
      {
        Push(xs[i].0, xs[i].1);
        i := i + 1;
      }
    }

    /** `mem::take(self).into_iter().collect()`: the elements as a list, leaving an empty vector. */
    method Take() returns (entries: seq<(A, B)>)
      requires Valid()
      modifies this`aaa, this`bbb, this`len
      ensures Valid() && fresh(aaa) && fresh(bbb)
      ensures entries == old(Contents()) && Contents() == []
    {
      entries := [];
      var i := 0;
      while i < len
        invariant i <= len && entries == Contents()[..i]
      {
        entries := entries + [(aaa[i], bbb[i])];
        i := i + 1;
      }
      aaa, bbb, len := new A[0], new B[0], 0;
    }
  }

  /** `insertion_sort` over two columns holding the pairs `c`; afterwards they hold `d`. */
  method InsertionSortColumns<A, B>(aaa: array<A>, bbb: array<B>, len: nat, cmp: Comparator<(A, B)>,
                                    ghost c: seq<(A, B)>)
    returns (completed: bool, ghost d: seq<(A, B)>)
    requires aaa as object != bbb as object && len <= aaa.Length && len <= bbb.Length
    requires |c| == len && forall i :: 0 <= i < len ==> (aaa[i], bbb[i]) == c[i]
    modifies aaa, bbb
    ensures |d| == len && forall i :: 0 <= i < len ==> (aaa[i], bbb[i]) == d[i]
    ensures multiset(d) == multiset(c)
    ensures (completed, d) == InsertionRun(cmp, c, 1)
    ensures SortOutcome(cmp, c, completed, d)
  {
    hide SortedSoFar, SortOutcome, InsertionRun, PointFor, InsertionPoint, SwapShift;
    completed, d := true, c;
    SortedAtFirst(cmp, c);
    if len == 0 {
      return;
    }
    var i := 1;
    while i < len
      invariant 1 <= i <= len == |d| && completed
      invariant forall i :: 0 <= i < len ==> (aaa[i], bbb[i]) == d[i]
      invariant SortedSoFar(cmp, c, d, i) && InsertionRun(cmp, d, i) == InsertionRun(cmp, c, 1)
    {
      RunUnfolds(cmp, d, i);
      var point;
      completed, point := FindInsertionPoint(aaa, bbb, i, cmp, d);
      if !completed {
        PanicMeansUnlawful(cmp, c, d, i, point - 1);
        return;
      }
      InsertStep(cmp, c, d, i, point);
      if point != i {
        SwapShiftColumns(aaa, bbb, point, i, d);
      }
      assert point == i ==> forall k :: 0 <= k < len ==> SwapShift(d, i, i)[k] == d[k];
      d := SwapShift(d, point, i);
      i := i + 1;
    }
    SortedWhenDone(cmp, c, d);
  }

  method SwapShiftColumns<A, B>(aaa: array<A>, bbb: array<B>, a: nat, b: nat, ghost d: seq<(A, B)>)
    requires aaa as object != bbb as object && a < b < |d| <= aaa.Length && |d| <= bbb.Length
    requires forall i :: 0 <= i < |d| ==> (aaa[i], bbb[i]) == d[i]
    modifies aaa, bbb
    ensures forall i :: 0 <= i < |d| ==> (aaa[i], bbb[i]) == SwapShift(d, a, b)[i]
  {
    SliceSwapShift(aaa, a, b);
    SliceSwapShift(bbb, a, b);
  }

  /** Scan down from `i` while the element at `i` is less than the one below the scan. */
  method FindInsertionPoint<A, B>(aaa: array<A>, bbb: array<B>, nextUnsorted: nat, cmp: Comparator<(A, B)>,
                                  ghost d: seq<(A, B)>)
    returns (completed: bool, i: nat)
    requires nextUnsorted < |d| <= aaa.Length && |d| <= bbb.Length
    requires forall k :: 0 <= k < |d| ==> (aaa[k], bbb[k]) == d[k]
    ensures completed ==> InsertionPoint(cmp, d, nextUnsorted, i)
    ensures PointFor(cmp, d, nextUnsorted, nextUnsorted) == if completed then Some(i) else None
    ensures !completed ==> 0 < i <= nextUnsorted && cmp(d[nextUnsorted], d[i - 1]) == Panics
  {
    i := nextUnsorted;
    completed := true;
    while i > 0
      invariant i <= nextUnsorted && completed
      invariant forall k :: i <= k < nextUnsorted ==> cmp(d[nextUnsorted], d[k]) == Less
      invariant PointFor(cmp, d, nextUnsorted, nextUnsorted) == PointFor(cmp, d, nextUnsorted, i)
    {
      assert (aaa[i - 1], bbb[i - 1]) == d[i - 1] && (aaa[nextUnsorted], bbb[nextUnsorted]) == d[nextUnsorted];
      match cmp((aaa[nextUnsorted], bbb[nextUnsorted]), (aaa[i - 1], bbb[i - 1])) {
        case Less => i := i - 1;
        case Panics =>
          completed := false;
          return;
        case _ => return;
      }
    }
  }

  /** `slice_swap_shift`: move the element at `b` down to `a`. */
  method SliceSwapShift<T>(s: array<T>, a: nat, b: nat)
    requires a < b < s.Length
    modifies s
    ensures s[a] == old(s[b])
    ensures forall i :: a < i <= b ==> s[i] == old(s[i - 1])
    ensures forall i :: 0 <= i < s.Length && !(a <= i <= b) ==> s[i] == old(s[i])
  {
    var tmp := s[b];
    forall i | a < i <= b { s[i] := s[i - 1]; }
    s[a] := tmp;
  }

  /** The loop of `retain`, and the state its guard finds: `head` kept, `d[next..]` still to be moved down. */
  method RetainLoop<A, B>(aaa: array<A>, bbb: array<B>, len: nat, f: Closure<A, B>, ghost c: seq<(A, B)>)
    returns (written: nat, next: nat, completed: bool, ghost head: seq<(A, B)>, ghost d: seq<(A, B)>)
    requires aaa as object != bbb as object && len <= aaa.Length && len <= bbb.Length
    requires |c| == len && forall i :: 0 <= i < len ==> (aaa[i], bbb[i]) == c[i]
    modifies aaa, bbb
    ensures written == |head| <= next <= len == |d|
    ensures forall i :: 0 <= i < written ==> (aaa[i], bbb[i]) == head[i]
    ensures forall i :: next <= i < len ==> (aaa[i], bbb[i]) == d[i]
    ensures Outcome(f, c, completed, next, head, d)
    ensures completed ==> next == len
  {
    written, next, completed, head, d := 0, 0, true, [], c;
    while next < len && completed
      invariant written == |head| <= next <= len == |d|
      invariant forall i :: 0 <= i < written ==> (aaa[i], bbb[i]) == head[i]
      invariant forall i :: next <= i < len ==> (aaa[i], bbb[i]) == d[i]
      invariant Outcome(f, c, completed, next, head, d)
      decreases len - next, completed
    {
      assert (aaa[next], bbb[next]) == d[next];
      StepPreserves(f, c, next, head);
      match f(next, aaa[next], bbb[next]) {
        case Panic(a, b) =>
          WritePair(aaa, bbb, next, a, b);
          completed := false;
          d := d[next := (a, b)];
        case Drop(dropPanics) =>
          next := next + 1;
          completed := !dropPanics;
        case Keep(a, b) =>
          next := next + 1;
          WritePair(aaa, bbb, written, a, b);
          written := written + 1;
          head := head + [(a, b)];
      }
    }
  }

  method WritePair<A, B>(aaa: array<A>, bbb: array<B>, k: nat, a: A, b: B)
    requires aaa as object != bbb as object && k < aaa.Length && k < bbb.Length
    modifies aaa, bbb
    ensures aaa[k] == a && bbb[k] == b
    ensures forall i :: 0 <= i < aaa.Length && i != k ==> aaa[i] == old(aaa[i])
    ensures forall i :: 0 <= i < bbb.Length && i != k ==> bbb[i] == old(bbb[i])
  {
    aaa[k], bbb[k] := a, b;
  }

  /** How far `retain` got: before call `k` with nothing but `head` moved, or stopped by a panic. */
  ghost predicate Outcome<A, B>(f: Closure<A, B>, c: seq<(A, B)>, completed: bool, k: nat,
                                head: seq<(A, B)>, d: seq<(A, B)>) {
    k <= |c| == |d| &&
    if completed then
      d == c && StopAt(f, c, 0) == StopAt(f, c, k) && head == Kept(f, c, k)
    else
      StopAt(f, c, 0) < |c| && head + d[k..] == Retained(f, c)
  }

  lemma OutcomeIsRetained<A, B>(f: Closure<A, B>, c: seq<(A, B)>, completed: bool, k: nat,
                                head: seq<(A, B)>, d: seq<(A, B)>)
    requires Outcome(f, c, completed, k, head, d)
    requires completed ==> k == |c|
    ensures head + d[k..] == Retained(f, c)
    ensures completed <==> StopAt(f, c, 0) == |c|
  {
    if completed {
      assert head + d[k..] == head;
    }
  }

  lemma StepPreserves<A, B>(f: Closure<A, B>, c: seq<(A, B)>, k: nat, head: seq<(A, B)>)
    requires Outcome(f, c, true, k, head, c) && k < |c|
    ensures
      match f(k, c[k].0, c[k].1)
      case Panic(a, b) => Outcome(f, c, false, k, head, c[k := (a, b)])
      case Drop(true) => Outcome(f, c, false, k + 1, head, c)
      case Drop(false) => Outcome(f, c, true, k + 1, head, c)
      case Keep(a, b) => Outcome(f, c, true, k + 1, head + [(a, b)], c)
  {
    match f(k, c[k].0, c[k].1)
    case Panic(a, b) =>
      assert c[k := (a, b)][k..] == [(a, b)] + c[k + 1..];
    case Drop(dropPanics) =>
      assert head + [] == head;
      assert [] + c[k + 1..] == c[k + 1..];
    case Keep(a, b) =>
  }

  /** `ptr::copy`: an overlapping move towards the front of one buffer. */
  method CopyWithin<T>(a: array<T>, src: nat, dst: nat, n: nat)
    requires dst <= src && src + n <= a.Length
    modifies a
    ensures forall i :: 0 <= i < dst ==> a[i] == old(a[i])
    ensures forall i :: dst <= i < dst + n ==> a[i] == old(a[i - dst + src])
  {
    forall i | dst <= i < dst + n { a[i] := a[i - dst + src]; }
  }

  /** Both columns: move the elements from `next` on down to `hole`. */
  method CloseGap<A, B>(aaa: array<A>, bbb: array<B>, hole: nat, next: nat, len: nat, ghost c: seq<(A, B)>)
    requires aaa as object != bbb as object && len <= aaa.Length && len <= bbb.Length
    requires hole <= next <= len == |c|
    requires forall i :: 0 <= i < hole || next <= i < len ==> (aaa[i], bbb[i]) == c[i]
    modifies aaa, bbb
    ensures forall i :: 0 <= i < hole + len - next ==> (aaa[i], bbb[i]) == (c[..hole] + c[next..])[i]
  {
    CopyWithin(aaa, next, hole, len - next);
    CopyWithin(bbb, next, hole, len - next);
  }

  /** `reverse` on the used part of each column. */
  method ReverseColumns<A, B>(aaa: array<A>, bbb: array<B>, len: nat, ghost c: seq<(A, B)>)
    requires aaa as object != bbb as object && len <= aaa.Length && len <= bbb.Length
    requires |c| == len && forall i :: 0 <= i < len ==> (aaa[i], bbb[i]) == c[i]
    modifies aaa, bbb
    ensures forall i :: 0 <= i < len ==> (aaa[i], bbb[i]) == c[len - 1 - i]
  {
    forall i | 0 <= i < len { aaa[i] := aaa[len - 1 - i]; }
    forall i | 0 <= i < len { bbb[i] := bbb[len - 1 - i]; }
  }

  function CapAfterPush(len: nat, cap: nat, min: nat): nat {
    if len < cap then cap else Max(Max(len + 1, min), 2 * cap)
  }

  function MovedByPush(len: nat, cap: nat): nat {
    if len < cap then 0 else len
  }

  /** Capacity and total of moved elements after `n` pushes. */
  function AfterPushes(len: nat, cap: nat, moved: nat, min: nat, n: nat): (nat, nat) {
    if n == 0 then (cap, moved) else
    var (c, m) := AfterPushes(len, cap, moved, min, n - 1);
    (CapAfterPush(len + n - 1, c, min), m + MovedByPush(len + n - 1, c))
  }

  /** Growth is amortised: `n` pushes into an empty vector move at most `2 * n` elements,
      and the capacity always covers them. */
  lemma {:induction false} PushesAreAmortised(min: nat, n: nat)
    requires 0 < min
    ensures AfterPushes(0, 0, 0, min, n).0 >= n
    ensures AfterPushes(0, 0, 0, min, n).1 <= 2 * n
    ensures n > 0 ==>
      var (cap, moved) := AfterPushes(0, 0, 0, min, n);
      moved + min <= cap && (cap == min || cap < 2 * n)
  {
    if n > 0 {
      PushesAreAmortised(min, n - 1);
    }
  }
}
