/** Sequences with an element taken out, or turned around. */
module Sequences {

  lemma Associate<T>(a: seq<T>, b: seq<T>, c: seq<T>)
    ensures (a + b) + c == a + (b + c)
  {
  }

  lemma HeadAndTail<T>(s: seq<T>) returns (head: T, tail: seq<T>)
    requires s != []
    ensures s == [head] + tail && head == s[0] && tail == s[1..]
  {
    head, tail := s[0], s[1..];
  }

  lemma SliceOfSlice<T>(s: seq<T>, a: nat, b: nat, i: nat, j: nat)
    requires a <= b <= |s| && i <= j <= b - a
    ensures s[a..b][i..j] == s[a + i..a + j]
  {
    var t := s[a..b];
    forall k | 0 <= k < j - i
      ensures t[i..j][k] == s[a + i..a + j][k]
    {
      assert t[i..j][k] == t[i + k];
    }
  }

  lemma UpTo<T>(s: seq<T>, i: nat)
    requires i < |s|
    ensures s[..i + 1] == s[..i] + [s[i]]
  {
  }

  function RemoveAt<T>(s: seq<T>, i: nat): (r: seq<T>)
    requires i < |s|
    ensures |r| == |s| - 1
  {
    s[..i] + s[i + 1..]
  }

  lemma RemoveAtIndex<T>(s: seq<T>, i: nat, j: nat)
    requires i < |s| && j < |s| - 1
    ensures RemoveAt(s, i)[j] == s[if j < i then j else j + 1]
  {
  }

  lemma RemoveAtMultiset<T>(s: seq<T>, i: nat)
    requires i < |s|
    ensures multiset(s) == multiset(RemoveAt(s, i)) + multiset{s[i]}
  {
    assert s == s[..i] + [s[i]] + s[i + 1..];
  }

  lemma SplitAround<T>(s: seq<T>, k: nat) returns (a: seq<T>, b: seq<T>)
    requires k < |s|
    ensures s == a + ([s[k]] + b) && RemoveAt(s, k) == a + b
  {
    a, b := s[..k], s[k + 1..];
  }

  /** The head of `s` has a place in any rearrangement of `s`, and the rest rearranges the rest. */
  lemma Extract<T>(s: seq<T>, t: seq<T>) returns (k: nat)
    requires multiset(s) == multiset(t) && |s| > 0
    ensures k < |t| && t[k] == s[0]
    ensures multiset(s[1..]) == multiset(RemoveAt(t, k))
  {
    assert s[0] in multiset(t);
    k :| 0 <= k < |t| && t[k] == s[0];
    RemoveAtMultiset(t, k);
    assert s == [s[0]] + s[1..];
    assert multiset(s[1..]) == multiset(s) - multiset{s[0]};
  }

  function Reversed<T>(s: seq<T>): (r: seq<T>)
    ensures |r| == |s|
    ensures forall i :: 0 <= i < |s| ==> r[i] == s[|s| - 1 - i]
  {
    seq(|s|, i requires 0 <= i < |s| => s[|s| - 1 - i])
  }

  lemma {:induction false} ReversedMultiset<T>(s: seq<T>)
    ensures multiset(Reversed(s)) == multiset(s)
    decreases |s|
  {
    if s == [] {
    } else {
      ReversedMultiset(s[1..]);
      assert s == [s[0]] + s[1..];
      assert Reversed(s) == Reversed(s[1..]) + [s[0]];
    }
  }

  /** Positions in order, all below `n`. */
  predicate Ascending(ks: seq<nat>, n: nat) {
    (forall i :: 0 <= i < |ks| ==> ks[i] < n) && forall i, j :: 0 <= i < j < |ks| ==> ks[i] < ks[j]
  }
}
