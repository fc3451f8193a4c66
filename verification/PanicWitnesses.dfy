/** Maps that meet a panic: of two long ones under comparisons that panic one loses every entry and one keeps
    them all; and a drop that panics in `clear`. */
module PanicWitnesses {
  import opened Options
  import opened HashValue
  import opened Sorting
  import opened Vec2Storage
  import opened AssocLists
  import opened KeyOrder
  import opened SmallMaps

  function Numbers(): KeyOps<nat> {
    KeyOps((a: nat, b: nat) => a == b, (a: nat) => 0)
  }

  /** The numbers below `n`, from the greatest down. */
  function Down(n: nat): (es: AssocList<nat, ()>)
    ensures |es| == n && forall i :: 0 <= i < n ==> es[i] == (n - 1 - i, ())
  {
    seq(n, i requires 0 <= i < n => (n - 1 - i, ()))
  }

  /** Panics when it is asked about 0. */
  function PanicsOnZero(): Comparator<nat> {
    (a: nat, b: nat) => if a == 0 || b == 0 then Panics else if a < b then Less else if a == b then Equal else Greater
  }

  function AlwaysPanics(): Comparator<nat> {
    (a: nat, b: nat) => Panics
  }

  /** The first two entries descend, and the sort comes to 0 in the end. */
  lemma LongListEndsEmpty(n: nat, completed: bool, es': AssocList<nat, ()>)
    requires n > MAX_INSERTION
    requires KeysSorted(Numbers(), PanicsOnZero(), Down(n), completed, es')
    ensures !completed && es' == []
  {
    hide KeysSorted, SlotsSorted;
    var cmp, keys := PanicsOnZero(), Keys(Down(n));
    assert keys[0] == n - 1 && keys[1] == n - 2 && keys[n - 1] == 0;
    assert Descends(cmp, Down(n));
    assert PoisonedAt(cmp, keys, n - 1);
    EntriesLost(Numbers(), cmp, Down(n), completed, es');
  }

  /** The check before the sort panics at once. */
  lemma AlwaysPanickingKeepsAll(n: nat, completed: bool, es': AssocList<nat, ()>)
    requires n > 1
    requires KeysSorted(Numbers(), AlwaysPanics(), Down(n), completed, es')
    ensures !completed && es' == Down(n)
  {
    hide SlotsSorted;
    var keys := Keys(Down(n));
    assert AlwaysPanics()(keys[0], keys[1]) == Panics;
  }

  lemma NextIsAbsent(n: nat, i: nat)
    requires i < n
    ensures Find(KeyQuery(Numbers(), n - 1 - i).eq, Down(n)[..i]) == None
    ensures Down(n)[..i + 1] == Down(n)[..i] + [(n - 1 - i, ())]
    ensures Numbers().hash(n - 1 - i) == 0
  {
  }

  lemma NumbersAreLawful()
    ensures Lawful(Numbers())
  {
  }

  /** A map holding `Down(n)`. */
  method Fill(n: nat, nightly: bool) returns (m: SmallMap<nat, ()>)
    ensures m.Valid() && fresh(m.Repr) && m.ops == Numbers() && m.List() == Down(n)
  {
    NumbersAreLawful();
    hide SmallMap.Valid, Numbers, Lawful;
    m := new SmallMap<nat, ()>.WithCapacity(Numbers(), nightly, n, 4);
    var i := 0;
    while i < n
      invariant i <= n && m.Valid() && fresh(m.Repr) && m.ops == Numbers()
      invariant m.List() == Down(n)[..i]
    {
      NextIsAbsent(n, i);
      m.InsertHashedUniqueUnchecked(0, n - 1 - i, ());
      i := i + 1;
    }
    assert Down(n)[..n] == Down(n);
  }

  /** `sort_keys` on such maps. */
  method SortBoth(n: nat, nightly: bool) returns (lost: SmallMap<nat, ()>, kept: SmallMap<nat, ()>)
    requires n > MAX_INSERTION
    ensures lost.Valid() && lost.List() == []
    ensures kept.Valid() && kept.List() == Down(n)
  {
    hide SmallMap.Valid, KeysSorted, Down, Numbers;
    lost := Fill(n, nightly);
    var sorted := lost.SortKeys(PanicsOnZero());
    LongListEndsEmpty(n, sorted, lost.List());
    kept := Fill(n, nightly);
    sorted := kept.SortKeys(AlwaysPanics());
    AlwaysPanickingKeepsAll(n, sorted, kept.List());
  }

  /** A drop panics in `clear`: the length still counts the entries, which are gone. */
  method ClearStopsHalfway(n: nat, nightly: bool) returns (m: SmallMap<nat, ()>)
    requires n > 0
    ensures m.entries.len == n && m.entries.gone && !m.Valid()
  {
    m := Fill(n, nightly);
    assert Down(n)[0] == (n - 1, ());
    var completed := m.Clear((k: nat, v: ()) => k == n - 1);
  }
}
