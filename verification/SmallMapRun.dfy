/** Whole runs of a `SmallMap`: every sequence of operations behaves like the same sequence on an
    insertion-ordered association list. */
module SmallMapRuns {
  import opened Options
  import opened Sequences
  import opened HashValue
  import opened Sorting
  import opened Vec2Storage
  import opened VecMaps
  import opened AssocLists
  import opened Retaining
  import opened KeyOrder
  import opened SmallMaps

  datatype Op<!K, !V> =
    | OpGet(q: Query<K>)
    | OpInsert(key: K, value: V)
    | OpInsertUnique(key: K, value: V)
    | OpEntryOrInsert(key: K, value: V)
    | OpSetValue(q: Query<K>, value: V)
    | OpShiftRemove(q: Query<K>)
    | OpShiftRemoveIndex(i: nat)
    | OpPop
    | OpReverse
    | OpRetain(f: MapClosure<K, V>)
    | OpSortKeys(cmp: Comparator<K>)
    | OpReserve(n: nat)
    | OpClear(drop: (K, V) -> bool)
    | OpMaybeDropIndex

  datatype Output<+K, +V> =
    | Value(value: Option<V>)
    | Entry(entry: Option<(K, V)>)
    | Completed(completed: bool)
    | Unit

  /** What a caller must know before the operation: lookup keys are lawful, an unchecked insert is of
      an absent key, and no drop panics when everything is dropped. */
  ghost predicate Legal<K(!new), V>(ops: KeyOps<K>, es: AssocList<K, V>, op: Op<K, V>) {
    match op
    case OpGet(q) => LawfulQuery(ops, q)
    case OpSetValue(q, _) => LawfulQuery(ops, q)
    case OpShiftRemove(q) => LawfulQuery(ops, q)
    case OpInsertUnique(k, _) => Find(KeyQuery(ops, k).eq, es) == None
    case OpClear(drop) => DropsCleanly(drop, es)
    case _ => true
  }

  /** One operation on the list.  Sorting with a comparison that is not a lawful order may leave any order,
      or, if it panics during the sort of a long list, nothing at all. */
  ghost predicate Steps<K(!new), V>(ops: KeyOps<K>, es: AssocList<K, V>, op: Op<K, V>,
                                    es': AssocList<K, V>, out: Output<K, V>) {
    match op
    case OpGet(q) => es' == es && out == Value(Lookup(q.eq, es))
    case OpInsert(k, v) => es' == Insert(ops, es, k, v) && out == Value(Lookup(KeyQuery(ops, k).eq, es))
    case OpInsertUnique(k, v) => es' == es + [(k, v)] && out == Unit
    case OpEntryOrInsert(k, v) =>
      && es' == (if Find(KeyQuery(ops, k).eq, es) == None then es + [(k, v)] else es)
      && out == Value(Lookup(KeyQuery(ops, k).eq, es'))
    case OpSetValue(q, v) =>
      && es' == (match Find(q.eq, es) case None => es case Some(i) => es[i := (es[i].0, v)])
      && out == Value(Lookup(q.eq, es))
    case OpShiftRemove(q) => es' == Remove(q.eq, es) && out == Entry(LookupEntry(q.eq, es))
    case OpShiftRemoveIndex(i) =>
      if i < |es| then es' == RemoveAt(es, i) && out == Entry(Some(es[i])) else es' == es && out == Entry(None)
    case OpPop =>
      if |es| == 0 then es' == es && out == Entry(None)
      else es == es' + [es[|es| - 1]] && out == Entry(Some(es[|es| - 1]))
    case OpReverse => es' == Reversed(es) && out == Unit
    case OpRetain(f) =>
      && es' == Retained(OnPairs(f), es)
      && out == Completed(StopAt(OnPairs(f), es, 0) == |es|)
    case OpSortKeys(cmp) =>
      out.Completed? && KeysSorted(ops, cmp, es, out.completed, es')
    case OpClear(_) => es' == [] && out == Unit
    case OpReserve(_) => es' == es && out == Unit
    case OpMaybeDropIndex => es' == es && out == Unit
  }

  /** A run of the list machine: the lists between the operations, and the outputs. */
  ghost predicate IsRun<K(!new), V>(ops: KeyOps<K>, program: seq<Op<K, V>>,
                                    trace: seq<AssocList<K, V>>, outs: seq<Output<K, V>>) {
    && |trace| == |program| + 1 && |outs| == |program|
    && forall i :: 0 <= i < |program| ==> Steps(ops, trace[i], program[i], trace[i + 1], outs[i])
  }

  /** Whatever the list machine does, the program only makes legal calls. */
  ghost predicate LegalProgram<K(!new), V(!new)>(ops: KeyOps<K>, es: AssocList<K, V>, program: seq<Op<K, V>>)
    decreases |program|
  {
    program == [] ||
    (&& Legal(ops, es, program[0])
     && forall es', out :: Steps(ops, es, program[0], es', out) ==> LegalProgram(ops, es', program[1..]))
  }

  /** One operation on the map is one step of the list. */
  method Apply<K(!new, 0), V(0)>(m: SmallMap<K, V>, op: Op<K, V>) returns (out: Output<K, V>)
    requires m.Valid() && Legal(m.ops, m.List(), op)
    modifies m.Repr
    ensures m.Valid() && fresh(m.Repr - old(m.Repr))
    ensures Steps(m.ops, old(m.List()), op, m.List(), out)
  {
    if op.OpGet? || op.OpSetValue? {
      out := ApplyLookup(m, op);
    } else if op.OpInsert? || op.OpInsertUnique? || op.OpEntryOrInsert? {
      out := ApplyInsert(m, op);
    } else if op.OpShiftRemove? || op.OpShiftRemoveIndex? || op.OpPop? || op.OpClear? {
      out := ApplyRemove(m, op);
    } else {
      out := ApplyReorder(m, op);
    }
  }

  method ApplyLookup<K(!new, 0), V(0)>(m: SmallMap<K, V>, op: Op<K, V>) returns (out: Output<K, V>)
    requires m.Valid() && Legal(m.ops, m.List(), op)
    requires op.OpGet? || op.OpSetValue?
    modifies m.Repr
    ensures m.Valid() && fresh(m.Repr - old(m.Repr))
    ensures Steps(m.ops, old(m.List()), op, m.List(), out)
  {
    hide SmallMap.Valid, LawfulQuery, KeysSorted;
    match op {
      case OpGet(q) =>
        var i := m.GetIndexOfHashedRaw(q);
        out := Value(match i case None => None case Some(i) => Some(m.entries.aaa[i].1));
      case OpSetValue(q, v) =>
        var i := m.GetIndexOfHashedRaw(q);
        match i {
          case None => out := Value(None);
          case Some(i) =>
            out := Value(Some(m.entries.aaa[i].1));
            m.ReplaceValue(i, v);
        }
    }
  }

  method ApplyInsert<K(!new, 0), V(0)>(m: SmallMap<K, V>, op: Op<K, V>) returns (out: Output<K, V>)
    requires m.Valid() && Legal(m.ops, m.List(), op)
    requires op.OpInsert? || op.OpInsertUnique? || op.OpEntryOrInsert?
    modifies m.Repr
    ensures m.Valid() && fresh(m.Repr - old(m.Repr))
    ensures Steps(m.ops, old(m.List()), op, m.List(), out)
  {
    match op {
      case OpInsert(k, v) =>
        var r := m.InsertHashed(m.ops.hash(k), k, v);
        out := Value(r);
      case OpInsertUnique(k, v) =>
        m.InsertHashedUniqueUnchecked(m.ops.hash(k), k, v);
        out := Unit;
      case OpEntryOrInsert(k, v) =>
        out := ApplyEntry(m, k, v);
    }
  }

  method ApplyRemove<K(!new, 0), V(0)>(m: SmallMap<K, V>, op: Op<K, V>) returns (out: Output<K, V>)
    requires m.Valid() && Legal(m.ops, m.List(), op)
    requires op.OpShiftRemove? || op.OpShiftRemoveIndex? || op.OpPop? || op.OpClear?
    modifies m.Repr
    ensures m.Valid() && fresh(m.Repr - old(m.Repr))
    ensures Steps(m.ops, old(m.List()), op, m.List(), out)
  {
    hide SmallMap.Valid;
    match op {
      case OpShiftRemove(q) =>
        var r := m.ShiftRemoveHashedEntry(q);
        out := Entry(r);
      case OpShiftRemoveIndex(i) =>
        var r := m.ShiftRemoveIndexHashed(i);
        out := Entry(r);
      case OpPop =>
        var r := m.Pop();
        out := Entry(r);
      case OpClear(drop) =>
        var completed := m.Clear(drop);
        out := Unit;
    }
  }

  method ApplyReorder<K(!new, 0), V(0)>(m: SmallMap<K, V>, op: Op<K, V>) returns (out: Output<K, V>)
    requires m.Valid() && Legal(m.ops, m.List(), op)
    requires op.OpReverse? || op.OpRetain? || op.OpSortKeys? || op.OpReserve? || op.OpMaybeDropIndex?
    modifies m.Repr
    ensures m.Valid() && fresh(m.Repr - old(m.Repr))
    ensures Steps(m.ops, old(m.List()), op, m.List(), out)
  {
    match op {
      case OpReverse =>
        m.Reverse();
        out := Unit;
      case OpRetain(f) =>
        var r := m.Retain(f);
        out := Completed(r);
      case OpSortKeys(cmp) =>
        var r := m.SortKeys(cmp);
        out := Completed(r);
      case OpReserve(n) =>
        m.Reserve(n);
        out := Unit;
      case OpMaybeDropIndex =>
        m.MaybeDropIndex();
        out := Unit;
    }
  }

  method ApplyEntry<K(!new, 0), V(0)>(m: SmallMap<K, V>, k: K, v: V) returns (out: Output<K, V>)
    requires m.Valid()
    modifies m.Repr
    ensures m.Valid() && fresh(m.Repr - old(m.Repr))
    ensures Steps(m.ops, old(m.List()), OpEntryOrInsert(k, v), m.List(), out)
  {
    KeyQueryIsLawful(m.ops, k);
    var i := m.EntryOrInsert(m.ops.hash(k), k, v);
    assert m.ops.eq(k, m.List()[i].0);
    AtMostOneMatch(m.ops, m.List(), KeyQuery(m.ops, k), i);
    out := Value(Some(m.entries.aaa[i].1));
  }

  /** Every run refines a run of the list, and ends in a well-formed map. */
  method Run<K(!new, 0), V(!new, 0)>(m: SmallMap<K, V>, program: seq<Op<K, V>>)
    returns (outs: seq<Output<K, V>>, ghost trace: seq<AssocList<K, V>>)
    requires m.Valid() && LegalProgram(m.ops, m.List(), program)
    modifies m.Repr
    decreases |program|
    ensures m.Valid() && fresh(m.Repr - old(m.Repr))
    ensures IsRun(m.ops, program, trace, outs)
    ensures trace[0] == old(m.List()) && trace[|program|] == m.List()
  {
    ghost var start := m.List();
    if program == [] {
      outs, trace := [], [start];
    } else {
      var out := Apply(m, program[0]);
      ghost var next := m.List();
      outs, trace := Run(m, program[1..]);
      RunPrepends(m.ops, start, program, out, trace, outs);
      outs, trace := [out] + outs, [start] + trace;
    }
  }

  lemma RunPrepends<K(!new), V>(ops: KeyOps<K>, es: AssocList<K, V>, program: seq<Op<K, V>>, out: Output<K, V>,
                                trace: seq<AssocList<K, V>>, outs: seq<Output<K, V>>)
    requires |program| > 0 && IsRun(ops, program[1..], trace, outs) && Steps(ops, es, program[0], trace[0], out)
    ensures IsRun(ops, program, [es] + trace, [out] + outs)
  {
    var trace', outs' := [es] + trace, [out] + outs;
    forall i | 0 <= i < |program| ensures Steps(ops, trace'[i], program[i], trace'[i + 1], outs'[i]) {
      if i > 0 {
        assert program[i] == program[1..][i - 1];
        assert Steps(ops, trace[i - 1], program[1..][i - 1], trace[i], outs[i - 1]);
      }
    }
  }

  // ---- what holds over every run ----

  /** Slots holding the given entries. */
  function SlotsOf<K, V>(ops: KeyOps<K>, es: AssocList<K, V>): (c: seq<Slot<K, V>>)
    ensures |c| == |es|
    ensures forall i :: 0 <= i < |es| ==> c[i] == (es[i], ops.hash(es[i].0))
  {
    seq(|es|, i requires 0 <= i < |es| => (es[i], ops.hash(es[i].0)))
  }

  lemma UniqueRetained<K(!new), V>(ops: KeyOps<K>, f: MapClosure<K, V>, es: AssocList<K, V>)
    requires Lawful(ops) && Unique(ops, es)
    ensures Unique(ops, Retained(OnPairs(f), es))
  {
    var c := SlotsOf(ops, es);
    assert Entries(c) == es;
    RetainedIsValid(ops, f, c);
  }

  /** Every step keeps keys unique. */
  lemma StepsKeepUnique<K(!new), V>(ops: KeyOps<K>, es: AssocList<K, V>, op: Op<K, V>,
                                    es': AssocList<K, V>, out: Output<K, V>)
    requires Lawful(ops) && Unique(ops, es) && Legal(ops, es, op) && Steps(ops, es, op, es', out)
    ensures Unique(ops, es')
  {
    match op
    case OpInsert(k, v) =>
      if Find(KeyQuery(ops, k).eq, es) == None { UniqueAppend(ops, es, k, v); }
    case OpInsertUnique(k, v) => UniqueAppend(ops, es, k, v);
    case OpEntryOrInsert(k, v) =>
      if Find(KeyQuery(ops, k).eq, es) == None { UniqueAppend(ops, es, k, v); }
    case OpRetain(f) => UniqueRetained(ops, f, es);
    case OpSortKeys(cmp) =>
      if multiset(es') == multiset(es) { UniqueReordered(ops, es, es'); }
    case OpShiftRemoveIndex(i) =>
      if i < |es| { UniqueRemoveAt(ops, es, i); }
    case OpShiftRemove(q) =>
      if Find(q.eq, es).Some? { UniqueRemoveAt(ops, es, Find(q.eq, es).value); }
    case OpReverse => UniqueReversed(ops, es);
    case OpPop =>
      assert forall i :: 0 <= i < |es'| ==> es'[i] == es[i];
    case OpGet(_) =>
    case OpSetValue(q, v) =>
    case _ =>
  }

  /** Every comparison the program sorts by is a lawful order. */
  ghost predicate LawfulSorts<K(!new), V>(ops: KeyOps<K>, program: seq<Op<K, V>>) {
    forall i :: 0 <= i < |program| && program[i].OpSortKeys? ==> LawfulOrder(ops, program[i].cmp)
  }

  lemma StepsDeterministic<K(!new), V>(ops: KeyOps<K>, es: AssocList<K, V>, op: Op<K, V>,
                                       es1: AssocList<K, V>, out1: Output<K, V>,
                                       es2: AssocList<K, V>, out2: Output<K, V>)
    requires Lawful(ops) && Unique(ops, es)
    requires op.OpSortKeys? ==> LawfulOrder(ops, op.cmp)
    requires Steps(ops, es, op, es1, out1) && Steps(ops, es, op, es2, out2)
    ensures es1 == es2 && out1 == out2
  {
    match op
    case OpSortKeys(cmp) =>
      LawfulOrderSorts(ops, cmp, es, out1.completed, es1);
      LawfulOrderSorts(ops, cmp, es, out2.completed, es2);
      hide KeysSorted, Unique, LawfulOrder, SortedByKey;
      UniqueReordered(ops, es, es1);
      SortedOrderIsUnique(ops, cmp, es1, es2);
    case OpPop =>
      if |es| > 0 {
        assert es1 == es[..|es| - 1] && es2 == es[..|es| - 1];
      }
    case _ =>
  }

  /** In every run every list has unique keys, and with lawful sorts the lists and the outputs are
      determined by the start. */
  lemma {:induction false} RunsAgree<K(!new), V(!new)>(
      ops: KeyOps<K>, program: seq<Op<K, V>>, n: nat,
      trace1: seq<AssocList<K, V>>, outs1: seq<Output<K, V>>,
      trace2: seq<AssocList<K, V>>, outs2: seq<Output<K, V>>)
    requires Lawful(ops) && LawfulSorts(ops, program) && n <= |program|
    requires IsRun(ops, program, trace1, outs1) && IsRun(ops, program, trace2, outs2)
    requires trace1[0] == trace2[0] && Unique(ops, trace1[0]) && LegalProgram(ops, trace1[0], program)
    ensures trace1[..n + 1] == trace2[..n + 1] && outs1[..n] == outs2[..n]
    ensures forall i :: 0 <= i <= n ==> Unique(ops, trace1[i])
    ensures LegalProgram(ops, trace1[n], program[n..])
  {
    if n > 0 {
      RunsAgree(ops, program, n - 1, trace1, outs1, trace2, outs2);
      var es, op := trace1[n - 1], program[n - 1];
      assert program[n - 1..][0] == op && program[n - 1..][1..] == program[n..];
      assert es == trace2[n - 1] by { assert trace1[..n][n - 1] == trace2[..n][n - 1]; }
      StepsDeterministic(ops, es, op, trace1[n], outs1[n - 1], trace2[n], outs2[n - 1]);
      StepsKeepUnique(ops, es, op, trace1[n], outs1[n - 1]);
      assert trace1[..n + 1] == trace1[..n] + [trace1[n]] && trace2[..n + 1] == trace2[..n] + [trace2[n]];
      assert outs1[..n] == outs1[..n - 1] + [outs1[n - 1]] && outs2[..n] == outs2[..n - 1] + [outs2[n - 1]];
    } else {
      assert program[0..] == program;
    }
  }

  /** An operation without the hash its lookup key came with. */
  function Unhashed<K, V>(op: Op<K, V>): Op<K, V> {
    match op
    case OpGet(q) => OpGet(Query(0, q.eq))
    case OpSetValue(q, v) => OpSetValue(Query(0, q.eq), v)
    case OpShiftRemove(q) => OpShiftRemove(Query(0, q.eq))
    case _ => op
  }

  /** The same operations, on keys that compare alike but may hash differently. */
  ghost predicate SameButForHashes<K(!new), V>(ops1: KeyOps<K>, program1: seq<Op<K, V>>,
                                               ops2: KeyOps<K>, program2: seq<Op<K, V>>) {
    && ops1.eq == ops2.eq
    && |program1| == |program2|
    && forall i :: 0 <= i < |program1| ==> Unhashed(program1[i]) == Unhashed(program2[i])
  }

  lemma StepsIgnoreHashes<K(!new), V>(ops1: KeyOps<K>, op1: Op<K, V>, ops2: KeyOps<K>, op2: Op<K, V>,
                                      es: AssocList<K, V>, es': AssocList<K, V>, out: Output<K, V>)
    requires ops1.eq == ops2.eq && Unhashed(op1) == Unhashed(op2)
    ensures Steps(ops1, es, op1, es', out) <==> Steps(ops2, es, op2, es', out)
  {
  }

  /** Two runs of the same operations from the same list give the same lists and outputs, whatever hashes the
      two key types have: neither capacity, nor the index, nor the toolchain, nor hash collisions show. */
  lemma RunsAreDeterministic<K(!new), V(!new)>(
      ops1: KeyOps<K>, program1: seq<Op<K, V>>, trace1: seq<AssocList<K, V>>, outs1: seq<Output<K, V>>,
      ops2: KeyOps<K>, program2: seq<Op<K, V>>, trace2: seq<AssocList<K, V>>, outs2: seq<Output<K, V>>)
    requires Lawful(ops1) && LawfulSorts(ops1, program1) && SameButForHashes(ops1, program1, ops2, program2)
    requires IsRun(ops1, program1, trace1, outs1) && IsRun(ops2, program2, trace2, outs2)
    requires trace1[0] == trace2[0] && Unique(ops1, trace1[0]) && LegalProgram(ops1, trace1[0], program1)
    ensures trace1 == trace2 && outs1 == outs2
    ensures forall i :: 0 <= i < |trace1| ==> Unique(ops1, trace1[i])
  {
    hide Steps, Unhashed;
    forall i | 0 <= i < |program1| ensures Steps(ops1, trace2[i], program1[i], trace2[i + 1], outs2[i]) {
      StepsIgnoreHashes(ops1, program1[i], ops2, program2[i], trace2[i], trace2[i + 1], outs2[i]);
    }
    var n := |program1|;
    RunsAgree(ops1, program1, n, trace1, outs1, trace2, outs2);
    assert trace1 == trace1[..n + 1] && trace2 == trace2[..n + 1] && outs1 == outs1[..n] && outs2 == outs2[..n];
  }
}
