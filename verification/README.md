# Verified models of core Starlark data structures and tools

This project models six parts of the Starlark repository in Dafny and proves, for each, that the fast or
stateful form the code uses agrees with a simple one.

* **Insertion-ordered maps** (`Vec2.dfy`, `HashTable.dfy`, `VecMap.dfy`, `MapIndex.dfy`, `AssocList.dfy`,
  `Retaining.dfy`, `KeyOrder.dfy`, `Sorting.dfy`, `SmallMap.dfy`, `SmallMapRun.dfy`, `PanicWitnesses.dfy`). `Vec2`
  is two arrays of which the first `len` elements are in use; `SmallMap` is such a vector of entries and hashes
  and, above a threshold, a hash table from promoted hashes to positions. The hash table is a class of buckets with
  tombstones, spare room, and a lookup that may try any bucket with the same seven-bit tag. Every operation of
  `SmallMap` is proved against an association list in insertion order, and leaves an index, if there is one,
  that is a bijection onto the positions under the right hashes. Panics are modelled of the predicate
  and the drops of `retain`, the comparisons of `sort_keys`, and the drops of `clear` and `truncate`; after one
  the map is again as described, except after a drop that panics in `clear`.
* **Equality, sets and hashing** (`MapEquality.dfy`, `SmallSet.dfy`, `UnorderedMap.dfy`, `HashValue.dfy`).
* **Strings** (`Utf8.dfy`, `FastString.dfy`). Strings are bytes that are valid UTF-8 (RFC 3629); their
  characters are what section 3 of that RFC says. Indexing, splitting, slicing, searching and counting are
  proved against the sequence of characters, for every pointer alignment.
* **Source positions** (`CodeMap.dfy`).
* **Scopes and definitions in the language server** (`Syntax.dfy`, `Blocks.dfy`, `Bind.dfy`, `BindTraversal.dfy`,
  `Scoping.dfy`, `Shapes.dfy`, `AstSearch.dfy`, `Definition.dfy`, `Answers.dfy`). The traversal that collects binds
  is proved against free variables, and against the blocks of the program with their assignments and readings, both
  defined on the syntax tree; the search for a definition against lexical scoping over these blocks, and over the
  strings and load statements of the tree where nothing is read.
* **Format strings** (`FormatParser.dfy`). The tokenizer is proved against a grammar with a printer.

Keys are given with their `Eq` and `Hash` as `KeyOps`; `Lawful` is what Rust demands of these (an equivalence,
and equal hashes for equivalent keys), and nothing else is assumed of hashes: they may all collide.

Facts about the code that the proofs brought out:

* A comparison that panics in `sort_keys` may lose every entry of a map with more than 20 entries, because
  these have been taken out of the vector to be sorted (`KeyOrder.EntriesLost`; `PanicWitnesses.SortBoth` is
  a map that ends empty). None is lost up to 20 entries, nor when the panic comes in the check, made first,
  whether the map is sorted already: that is, unless the first neighbours found out of order are a descent
  (`KeyOrder.EntriesKept`). When single keys decide which comparisons panic, these conditions are exact
  (`KeyOrder.EntriesLostExactly`). The index is right in every case.
* A drop that panics in `clear` leaves a vector that still counts the elements just dropped, and an index that
  was not cleared; it happens exactly when some entry's drop panics (`SmallMaps.SmallMap.Clear`,
  `PanicWitnesses.ClearStopsHalfway`). `truncate` corrects the length first and is not affected.
* The language server adds a column, which counts characters, to a byte position. Positions are recovered
  exactly on lines that are ASCII up to the position, and on no other
  (`CodeMaps.PositionRecovered`; `CodeMaps.PositionNotRecovered` is an input that shows it).
* `convert_str_indices` refuses some slices whose clamped indices are in order: those with a start beyond the
  length and an end that is absent or not below the length, and those with two negative indices out of order
  that both clamp to 0 (`FastString.RefusedAlthoughInOrder`, with examples in `FastString.RefusalExamples`).
  A start beyond the length is refused always, except in the empty string with a negative end.
* The second look-up of a name in `get_definition_location` never finds anything (`Definitions.AnswerIsLexical`).

`dafny verify dfyconfig.toml` checks everything.

## Model

| member | source | states |
|---|---|---|
| HashValue.PromoteInvertible | starlark_map/src/mix_u32.rs:23-25 | the promoted 64-bit hash determines the 32-bit hash: an explicit multiplication undoes the mix |
| HashValue.PromoteInjective | starlark_map/src/hash_value.rs:76-78 | `promote` never maps two different 32-bit hashes to one 64-bit hash |
| Sorting.SwapShift | starlark_map/src/sorting/insertion.rs:44-55 | the element at `b` is at `a`, those of `a..b` one place further, all others in place |
| Sorting.SwapShiftIsStable | starlark_map/src/sorting/insertion.rs:57-76 | moving an element before a run of greater ones keeps the reordering a permutation that never swaps equal elements |
| Sorting.InsertionSorted | starlark_map/src/sorting/insertion.rs:57-76 | inserting at the insertion point keeps the prefix sorted, one longer |
| Sorting.InsertStep | starlark_map/src/sorting/insertion.rs:57-76 | one round of the insertion sort keeps its invariant: permutation, sorted prefix, stability |
| Sorting.RunCompletes | starlark_map/src/sorting/insertion.rs:57-76 | insertion sort completes if no comparison of two elements panics |
| Sorting.RunStops | starlark_map/src/sorting/insertion.rs:57-76 | insertion sort stops if some element cannot be compared with any other |
| Sorting.PointFor | starlark_map/src/sorting/insertion.rs:26-37 | no insertion point only if a comparison on the way down panics |
| Sorting.FirstDisorder | starlark_map/src/vec_map.rs:242-248 | the first neighbours that are not in order: everything before them is |
| Sorting.StableSort | starlark_map/src/vec2.rs:521-527 | stand-in for the standard library: a permutation, sorted and stable under a lawful order; it stops only on a panicking comparison, and must if some element cannot be compared |
| Vec2Storage.FindInsertionPoint | starlark_map/src/sorting/insertion.rs:26-37 | the place before which everything from there on is greater, and nothing just before it is; or the comparison panicked |
| Vec2Storage.SliceSwapShift | starlark_map/src/sorting/insertion.rs:44-55 | the in-place move on an array, element by element |
| Vec2Storage.InsertionSortColumns | starlark_map/src/sorting/insertion.rs:57-76 | insertion sort moves both columns together: under a lawful order a sorted, stable permutation; stopped by a panic, still a permutation; whether it stops, and what it leaves, are those of the insertion sort on a list |
| Vec2Storage.Vec2.WithCapacity | starlark_map/src/vec2.rs:144-157 | an empty vector with the capacity asked for |
| Vec2Storage.Vec2.ReserveSlow | starlark_map/src/vec2.rs:226-242 | contents are kept, capacity becomes the maximum of what is needed, the minimum and twice the old one, and `len` elements are moved |
| Vec2Storage.Vec2.Reserve | starlark_map/src/vec2.rs:245-249 | afterwards there is room for `additional`; nothing moves if there already was |
| Vec2Storage.Vec2.Push | starlark_map/src/vec2.rs:271-279 | appends one pair, growing as the amortised bound counts it |
| Vec2Storage.PushesAreAmortised | starlark_map/src/vec2.rs:217-279 | any `n` pushes into an empty vector move at most `2 * n` elements in all, and the capacity always covers the length |
| Vec2Storage.Vec2.PushAll | starlark_map/src/vec2.rs:271-279 | a run of pushes appends all pairs and moves exactly as many elements as the amortised bound counts |
| Vec2Storage.Vec2.Remove | starlark_map/src/vec2.rs:330-347 | returns the pair at the index and closes the gap in both columns |
| Vec2Storage.Vec2.Clear | starlark_map/src/vec2.rs:351-357 | completes exactly when no drop panics, and then nothing is left; otherwise the length still counts elements that are gone |
| Vec2Storage.DropAll | starlark_map/src/vec2.rs:264-267 | dropping both columns completes exactly when no drop panics |
| Vec2Storage.Vec2.Pop | starlark_map/src/vec2.rs:360-367 | takes off exactly the last pair |
| Vec2Storage.Vec2.Truncate | starlark_map/src/vec2.rs:395-418 | keeps the first `n` pairs, or all, whether or not a drop panics |
| Vec2Storage.Vec2.Retain | starlark_map/src/vec2.rs:421-480 | whichever step panics, the guard leaves the kept part of the processed prefix followed by the untouched suffix, pairs intact; run to the end, the kept pairs |
| Vec2Storage.RetainLoop | starlark_map/src/vec2.rs:447-480 | the state the drop guard finds: `head` written, everything from `next` on still in place |
| Vec2Storage.StepPreserves | starlark_map/src/vec2.rs:447-480 | each of the four ends of one step (panic in the closure, panic in a drop, drop, keep) keeps that state sound |
| Vec2Storage.OutcomeIsRetained | starlark_map/src/vec2.rs:434-446 | from any such state moving the suffix down gives what `retain` promises |
| Vec2Storage.Vec2.SortInsertionBy | starlark_map/src/vec2.rs:492-507 | in place: exactly what insertion sort does to the list of pairs, also when it is stopped; under a lawful order sorted and stable |
| Vec2Storage.Vec2.SortBy | starlark_map/src/vec2.rs:510-528 | under a lawful order completes, sorted and stable; it stops only on a panicking comparison, and then keeps all pairs up to `MAX_INSERTION` and loses all of them above |
| Vec2Storage.Vec2.Reverse | starlark_map/src/vec_map.rs:273-276 | both columns reversed together |
| HashTables.HashTable.FindEntry | starlark_map/src/small_map.rs:294-306 | stand-in for hashbrown: any bucket with the hash's tag that `eq` accepts may be found; `None` only if no bucket under the hash is accepted |
| HashTables.HashTable.InsertUnique | starlark_map/src/small_map.rs:430-440 | stand-in for hashbrown: adds a bucket; the hasher is asked only when no room is left |
| HashTables.HashTable.Reserve | starlark_map/src/small_map.rs:401-411 | stand-in for hashbrown: makes room, asking the hasher only about stored positions |
| HashTables.FilterMapConcat | starlark_map/src/small_map.rs:562-583 | what survives `retain` on the table does not depend on how its buckets are grouped |
| VecMaps.FindHashWithoutSimd | starlark_map/src/vec_map/simd.rs:19-29 | the first position of a hash, if there is one |
| VecMaps.FindHashInArray | starlark_map/src/vec_map/simd.rs:31-80 | the same by vectors of lanes whose last one overlaps the one before it |
| VecMaps.FirstInWindow | starlark_map/src/vec_map/simd.rs:31-80 | a hit in an overlapping last vector is still the first hit of the whole array |
| VecMaps.GetIndexOfHashedRaw | starlark_map/src/vec_map.rs:81-100 | the first position whose hash matches and whose key `eq` accepts |
| VecMaps.IsSortedByKey | starlark_map/src/vec_map.rs:242-248 | decided by the first neighbours out of order: none, a descent, or a comparison that panics |
| MapIndex.AgreesIsBijection | starlark_map/src/small_map.rs:115-132 | an agreeing index has one bucket for every position, under that position's hash, and no other |
| MapIndex.BijectionAgrees | starlark_map/src/small_map.rs:115-132 | conversely such a bijection is an agreeing index |
| MapIndex.AppendAgrees | starlark_map/src/small_map.rs:465-481 | one bucket more indexes one entry more |
| MapIndex.PopAgrees | starlark_map/src/small_map.rs:630-650 | taking out the bucket of the last position indexes the list without it |
| MapIndex.MapPosMultiset | starlark_map/src/small_map.rs:545-553 | rewriting positions does not depend on the order in which a table yields its buckets |
| MapIndex.FilterMapMultiset | starlark_map/src/small_map.rs:562-583 | nor does rewriting and dropping them |
| MapIndex.ShiftAgrees | starlark_map/src/small_map.rs:532-559 | removing a bucket and moving later positions down by one indexes the list without that entry |
| MapIndex.ShiftLast | starlark_map/src/small_map.rs:532-559 | nothing needs moving when the last entry goes |
| MapIndex.RetainAgrees | starlark_map/src/small_map.rs:562-583 | the repair of `shift_remove_index_hashed` by `retain` indexes the list without that entry |
| MapIndex.MirrorAgrees | starlark_map/src/small_map.rs:758-766 | mirroring positions indexes the reversed list |
| AssocLists.AtMostOneMatch | starlark_map/src/small_map.rs:294-317 | with unique keys a lawful lookup key matches at most one entry |
| AssocLists.ScanFinds | starlark_map/src/vec_map.rs:81-100 | scanning the hash column finds the entry that a search by key finds |
| AssocLists.IndexHit | starlark_map/src/small_map.rs:294-306 | a bucket the index finds is that entry |
| AssocLists.IndexMiss | starlark_map/src/small_map.rs:294-306 | if the index finds none, there is no such entry |
| AssocLists.UniqueReordered | starlark_map/src/small_map.rs:712-735 | reordering keeps keys unique |
| AssocLists.InsertPuts | starlark_map/src/small_map.rs:485-499 | inserting, told by looking keys up: equivalent keys lead to the new value, others where they led before; stored keys stay |
| AssocLists.RemoveForgets | starlark_map/src/small_map.rs:532-559 | removing, told by looking keys up: the key leads to nothing, others where they led before |
| Retaining.RetainedIsKept | starlark_map/src/small_map.rs:769-793 | an interrupted `retain` leaves what a run to the end leaves with a predicate that keeps everything after the interruption |
| Retaining.KeptIsValid | starlark_map/src/small_map.rs:769-793 | whatever is kept has unique keys with the right hashes |
| Retaining.RetainedIsValid | starlark_map/src/small_map.rs:769-793 | entries stay well formed however `retain` ends, and if none was removed the old index is still right, so rebuilding only when the length shrank is enough |
| Retaining.RetainIsFilter | starlark_map/src/vec2.rs:421-480 | run to the end, `retain` is filter |
| Retaining.RetainedLeaves | starlark_map/src/small_map.rs:769-793 | entry by entry: before the first panic those the predicate kept, at places in order and with the values it left, then the entry a panicking predicate was looking at (not one whose drop panicked), then the untouched rest |
| KeyOrder.NeighboursSorted | starlark_map/src/vec_map.rs:242-248 | neighbours in order make the whole list sorted |
| KeyOrder.SortOutcomeByKey | starlark_map/src/vec_map.rs:235-240 | what sorting whole slots by key does, told by the keys alone |
| KeyOrder.LawfulOrderSorts | starlark_map/src/small_map.rs:712-735 | under a lawful order `sort_keys` completes with the sorted rearrangement |
| KeyOrder.EntriesKept | starlark_map/src/small_map.rs:712-735 | no entry is lost from a short map, nor without a panicking comparison, nor when the check before the sort panics |
| KeyOrder.EntriesLost | starlark_map/src/small_map.rs:712-735 | every entry of a long map is lost if it descends before a panic and some key cannot be compared |
| KeyOrder.EntriesLostExactly | starlark_map/src/small_map.rs:712-735 | where single keys decide which comparisons panic: entries are lost exactly if the map is long, descends before a panic, and holds such a key |
| KeyOrder.ReorderedIsValid | starlark_map/src/small_map.rs:712-735 | reordering entries with their hashes keeps them well formed |
| KeyOrder.SortedOrderIsUnique | starlark_map/src/sorted_map.rs:134-156 | a list with unique keys has exactly one sorted order |
| SmallMaps.SmallMap.WithCapacity | starlark_map/src/small_map.rs:102-113 | an empty map with room for `n` entries, and an index exactly when `n` exceeds the threshold |
| SmallMaps.SmallMap.GetIndexOfHashedRaw | starlark_map/src/small_map.rs:294-317 | through the index or by scanning: the position of the matching entry, the same either way |
| SmallMaps.SmallMap.FindInIndex | starlark_map/src/small_map.rs:294-306 | the bucket found is that of the matching entry |
| SmallMaps.SmallMap.Hasher | starlark_map/src/small_map.rs:456-461 | gives the promoted hash of the entry at every position below the length; nothing lets a caller ask about any other |
| SmallMaps.SmallMap.FillIndex | starlark_map/src/small_map.rs:430-452 | one bucket per entry; the rehash closure is defined nowhere, so it is never called |
| SmallMaps.SmallMap.CreateIndex | starlark_map/src/small_map.rs:430-440 | an agreeing index with room for the capacity asked for |
| SmallMaps.SmallMap.RebuildIndex | starlark_map/src/small_map.rs:443-452 | after entries were reordered or removed the index agrees again, without growing |
| SmallMaps.SmallMap.Reserve | starlark_map/src/small_map.rs:401-411 | entries unchanged; afterwards `additional` entries fit without growing the columns or the index, or creating one |
| SmallMaps.SmallMap.MaybeDropIndex | starlark_map/src/small_map.rs:140-147 | drops the index exactly when the map is small enough to do without |
| SmallMaps.SmallMap.InsertHashedUniqueUnchecked | starlark_map/src/small_map.rs:465-481 | appends an entry whose key is absent, creating the index when the threshold is passed |
| SmallMaps.SmallMap.AddToIndex | starlark_map/src/small_map.rs:465-481 | the index half of an insertion: extend, create, or stay without |
| SmallMaps.SmallMap.InsertHashed | starlark_map/src/small_map.rs:485-499 | afterwards every key equivalent to the inserted one leads to the new value and every other key where it led before; stored keys keep their places, and one is added at the end exactly when none was equivalent; returns the old value |
| SmallMaps.SmallMap.EntryOrInsert | starlark_map/src/small_map.rs:613-627 | occupied: position of the entry, nothing changes; vacant: the default is appended |
| SmallMaps.SmallMap.ShiftRemoveHashedEntry | starlark_map/src/small_map.rs:532-559 | removes the matching entry, keeping the order of the others; afterwards the key leads to nothing and every other key where it led before |
| SmallMaps.SmallMap.TakeFromIndex | starlark_map/src/small_map.rs:532-559 | the index half: the bucket goes and later positions move down |
| SmallMaps.SmallMap.ShiftRemoveIndexHashed | starlark_map/src/small_map.rs:562-583 | removes the entry at a position, or nothing if out of range |
| SmallMaps.SmallMap.DropFromIndex | starlark_map/src/small_map.rs:562-583 | the index half, done by `retain` on the table |
| SmallMaps.SmallMap.Pop | starlark_map/src/small_map.rs:630-650 | removes and returns the last entry |
| SmallMaps.SmallMap.PopFromIndex | starlark_map/src/small_map.rs:630-650 | the index loses exactly the bucket of the popped position |
| SmallMaps.SmallMap.Clear | starlark_map/src/small_map.rs:677-686 | completes exactly when no drop of an entry panics, and then a valid empty map; otherwise the columns count entries that are gone and the index is not reached |
| SmallMaps.SmallMap.Reverse | starlark_map/src/small_map.rs:758-766 | the entries in reverse order |
| SmallMaps.SmallMap.MirrorIndex | starlark_map/src/small_map.rs:758-766 | mirrored positions agree with the reversed entries |
| SmallMaps.SmallMap.SortKeys | starlark_map/src/small_map.rs:712-735 | a panic in the check made first changes nothing; otherwise the sort decides, stopping only on a panicking comparison; however it ends, a well-formed map whose index agrees |
| SmallMaps.SmallMap.Retain | starlark_map/src/small_map.rs:769-793 | filter; interrupted at any step, the kept prefix and the untouched suffix, with an index that agrees |
| SmallMapRuns.Apply | starlark_map/src/small_map.rs:401-793 | each operation on the map, lookups included, is one step of the association list |
| SmallMapRuns.Run | starlark_map/src/small_map.rs:401-793 | every run of operations refines a run of the list, and ends in a well-formed map |
| SmallMapRuns.StepsKeepUnique | starlark_map/src/small_map.rs:401-793 | every step keeps keys unique |
| SmallMapRuns.StepsDeterministic | starlark_map/src/small_map.rs:401-793 | a step is determined by the list, sorting included |
| SmallMapRuns.RunsAgree | starlark_map/src/small_map.rs:401-793 | two runs of the same operations from the same list agree at every step, and keys stay unique |
| SmallMapRuns.StepsIgnoreHashes | starlark_map/src/small_map.rs:401-793 | a step of the list depends on how keys compare, not on how they hash |
| SmallMapRuns.RunsAreDeterministic | starlark_map/src/small_map.rs:401-793 | two runs of the same operations on keys that compare alike give the same lists and outputs whatever the hashes of the two are, so neither capacity, index, toolchain nor hash collisions show |
| PanicWitnesses.LongListEndsEmpty | starlark_map/src/small_map.rs:712-735 | descending keys of which the last cannot be compared: every entry of a long list is lost |
| PanicWitnesses.AlwaysPanickingKeepsAll | starlark_map/src/small_map.rs:712-735 | when every comparison panics every entry stays |
| PanicWitnesses.SortBoth | starlark_map/src/small_map.rs:712-735 | two long maps, of which `sort_keys` empties the first and leaves the second |
| PanicWitnesses.ClearStopsHalfway | starlark_map/src/small_map.rs:677-686 | a map that `clear` leaves counting entries that are gone |
| MapEquality.Collide | starlark_map/src/small_map.rs:975-982 | more than `n` values below `n`: two coincide (behind one-way equality) |
| MapEquality.Pigeonhole | starlark_map/src/small_map.rs:975-982 | `n` different positions below `n` are all of them |
| MapEquality.KeysPairUp | starlark_map/src/small_map.rs:975-982 | if all keys of one list are found in another of the same length, the two have the same keys |
| MapEquality.IncludedIsSame | starlark_map/src/small_map.rs:975-982 | at equal length one-way lookup makes two maps the same mapping |
| MapEquality.EqMeaning | starlark_map/src/small_map.rs:975-982 | equal length and one-way lookup hold exactly when the two lists are the same mapping, whatever their order and however values compare |
| MapEquality.HasEntry | starlark_map/src/small_map.rs:242-251 | looking a key up gives this value exactly when the list holds it under an equivalent key |
| MapEquality.SmallMapEq | starlark_map/src/small_map.rs:975-982 | `==` decides whether the two maps are the same mapping, values compared by their own `PartialEq` |
| MapEquality.EqOrdered | starlark_map/src/vec_map.rs:250-261 | same entries in the same order; comparing hash columns first changes no answer |
| MapEquality.SortedAgree | starlark_map/src/sorted_map.rs:134-156 | two sorted lists with the same keys agree on them position by position |
| MapEquality.SortedIsCanonical | starlark_map/src/sorted_map.rs:31-35 | two sorted maps are equal in order exactly when their mappings are equal |
| MapEquality.ReorderedIsSame | starlark_map/src/small_map.rs:712-735 | reordering does not change the mapping |
| MapEquality.Extend | starlark_map/src/small_map.rs:986-996 | inserts every pair in turn |
| MapEquality.LastPairWins | starlark_map/src/small_map.rs:986-996 | after inserting pairs in turn a key leads to the value of the last pair with it, or where it led before if there is none; stored keys stay |
| MapEquality.SmallMapFromIter | starlark_map/src/small_map.rs:917-929 | the map that inserting the pairs in turn gives |
| MapEquality.SortedMap.From | starlark_map/src/sorted_map.rs:142-156 | sorted, and the same mapping as the map it was made from |
| MapEquality.SortedMapFromIter | starlark_map/src/sorted_map.rs:134-140 | sorted, and the mapping that inserting the pairs gives |
| MapEquality.SortedMapEq | starlark_map/src/sorted_map.rs:31-35 | the derived, ordered equality decides whether the mappings are the same |
| SmallSets.NextMissing | starlark_map/src/small_set.rs:486-493 | the next unvisited element that the other set lacks, skipping those it has |
| SmallSets.Difference.Next | starlark_map/src/small_set.rs:486-493 | yields the elements of one set that are not in the other, in order, and then nothing |
| SmallSets.Difference.SizeHint | starlark_map/src/small_set.rs:495-500 | at every state the number of items to come lies between the two bounds |
| SmallSets.MatchedDistinct | starlark_map/src/small_set.rs:495-500 | different elements are matched by different elements of the other set |
| SmallSets.MissingCount | starlark_map/src/small_set.rs:495-500 | at most as many unvisited elements are matched as the other set has, so the lower bound holds |
| SmallSets.MissingElements | starlark_map/src/small_set.rs:377-388 | the difference holds an element exactly when the first set does and the second does not |
| SmallSets.MissingInOrder | starlark_map/src/small_set.rs:486-493 | the missing elements are those at certain places, in order, and all of them |
| SmallSets.Union.Next | starlark_map/src/small_set.rs:508-516 | yields the first set in order, then what only the second has, in order |
| SmallSets.UnionYieldsOnce | starlark_map/src/small_set.rs:391-398 | a union yields each element of either set, and each only once |
| UnorderedMaps.SumPick | starlark_map/src/unordered_map.rs:299-310 | any entry can be taken out of the wrapping sum |
| UnorderedMaps.HashIgnoresOrder | starlark_map/src/unordered_map.rs:299-310 | the sum does not depend on the order in which the table yields entries |
| UnorderedMaps.SameMappingSameSum | starlark_map/src/unordered_map.rs:299-310 | the same mapping has the same sum, when the entry hash respects equality of keys and of values |
| UnorderedMaps.EqualMapsHashEqually | starlark_map/src/unordered_map.rs:287-310 | maps equal under `==` have equal hashes |
| UnorderedMaps.UnorderedMap.FindEntry | starlark_map/src/unordered_map.rs:84-92 | finds the matching entry wherever the table keeps it |
| UnorderedMaps.UnorderedMap.Insert | starlark_map/src/unordered_map.rs:126-142 | afterwards every key equivalent to the inserted one leads to the new value and every other key where it led before, wherever the table puts the entry |
| UnorderedMaps.InsertedAnywhere | starlark_map/src/unordered_map.rs:126-142 | inserting means the same wherever the table puts the entry |
| UnorderedMaps.UnorderedMap.Remove | starlark_map/src/unordered_map.rs:145-153 | removes the matching entry; afterwards the key leads to nothing and every other key where it led before |
| UnorderedMaps.UnorderedMap.Hash | starlark_map/src/unordered_map.rs:299-310 | length and wrapping sum of the entry hashes |
| UnorderedMaps.UnorderedMapEq | starlark_map/src/unordered_map.rs:287-295 | `==` decides whether the two maps are the same mapping |
| Utf8.HeadOfEncoded | starlark_syntax/src/fast_string.rs:102-112 | (section 3 of RFC 3629) decoding the first character inverts encoding, whatever follows |
| Utf8.HeadIsEncoded | starlark_syntax/src/fast_string.rs:102-112 | (sections 3 and 4 of RFC 3629) a well-formed first character is the encoding of what it decodes to |
| Utf8.CharsOfEncoded | starlark_syntax/src/fast_string.rs:117-124 | decoding an encoded string gives the characters back |
| Utf8.EncodedChars | starlark_syntax/src/fast_string.rs:117-124 | encoding the characters of a string gives its bytes back |
| Utf8.CharsConcat | starlark_syntax/src/fast_string.rs:157-171 | the characters of a concatenation are those of the parts |
| Utf8.CutAtBoundary | starlark_syntax/src/fast_string.rs:157-171 | self-synchronisation: cut anywhere but before a continuation byte, both parts are strings and their characters are the characters cut |
| Utf8.PrefixEndsAtBoundary | starlark_syntax/src/fast_string.rs:249-271 | conversely, where a string splits into two strings there is a boundary |
| Utf8.CharCountIsByteCount | starlark_syntax/src/fast_string.rs:181-209 | a string has as many characters as bytes exactly when it is ASCII |
| Utf8.CutAscii | starlark_syntax/src/fast_string.rs:98-124 | cutting off an ASCII prefix of `n` bytes cuts off `n` characters |
| Utf8.RfcExamples | starlark_syntax/src/fast_string.rs:102-112 | (section 7 of RFC 3629) encodings of one to four bytes among its examples |
| FastString.Is1BytesMeansAscii | starlark_syntax/src/fast_string.rs:31-39 | one masked 64-bit test is true exactly when all eight bytes are ASCII |
| FastString.SkipAtMost1Byte | starlark_syntax/src/fast_string.rs:44-98 | for every alignment skips an ASCII prefix of at most `n` bytes |
| FastString.At | starlark_syntax/src/fast_string.rs:102-112 | the character at an index of the character sequence, or none past its end |
| FastString.Len | starlark_syntax/src/fast_string.rs:117-124 | the number of characters |
| FastString.SplitAt | starlark_syntax/src/fast_string.rs:157-171 | splits the character sequence at an index, or refuses exactly past its end |
| FastString.JoinSplit | starlark_syntax/src/fast_string.rs:157-171 | a split behind a skipped ASCII prefix is a split of the whole string |
| FastString.ByteMatchIsCharMatch | starlark_syntax/src/fast_string.rs:249-271 | a match of bytes starts and ends between characters |
| FastString.CharMatchIsByteMatch | starlark_syntax/src/fast_string.rs:249-271 | a match of characters is a match of bytes |
| FastString.SearchingBytesIsSearchingChars | starlark_syntax/src/fast_string.rs:249-271 | for valid strings searching bytes and searching characters agree |
| FastString.Contains | starlark_syntax/src/fast_string.rs:249-271 | true exactly when the needle's characters occur in a row among the haystack's |
| FastString.CountMatchesByte | starlark_syntax/src/fast_string.rs:130-132 | counts the bytes equal to the needle |
| FastString.CountingBytesIsCountingChars | starlark_syntax/src/fast_string.rs:130-144 | an ASCII byte occurs as often among the bytes as among the characters |
| FastString.CountSingle | starlark_syntax/src/fast_string.rs:136-144 | non-overlapping matches of one character are its occurrences |
| FastString.CountIsMultiplicity | starlark_syntax/src/fast_string.rs:130-132 | the count of an element is how often it is in the sequence |
| FastString.LeftmostAreCounted | starlark_syntax/src/fast_string.rs:136-144 | the matches counted do not overlap, each is an occurrence, and every occurrence starts inside one of them |
| FastString.CountMatches | starlark_syntax/src/fast_string.rs:136-144 | for an empty needle one more than there are characters; otherwise the number of leftmost matches: places where the needle occurs, each at or after the end of the one before, such that it starts nowhere else outside of them |
| FastString.Bound | starlark_syntax/src/convert_indices.rs:18-26 | the number from 0 to the limit that is nearest to the index |
| FastString.ConvertIndicesClamps | starlark_syntax/src/convert_indices.rs:29-35 | converted indices are the Python reading: from the end when negative, then clamped |
| FastString.RefusedAlthoughInOrder | starlark_syntax/src/fast_string.rs:213-246 | exactly which slices are refused although their clamped indices are in order |
| FastString.StartBeyondLength | starlark_syntax/src/fast_string.rs:213-246 | a start beyond the length is refused, except in the empty string with a negative end |
| FastString.RefusalExamples | starlark_syntax/src/fast_string.rs:213-246 | one example of each |
| FastString.SplitAtEnd | starlark_syntax/src/fast_string.rs:174-179 | the first `i` characters, or all |
| FastString.SlowNoSlice | starlark_syntax/src/fast_string.rs:181-209 | on the slow path a slice is refused exactly when the clamped start is past the clamped end |
| FastString.ConvertStrIndicesSlow | starlark_syntax/src/fast_string.rs:181-209 | the clamped character slice and its start, or `None` exactly when refused; no `unwrap` or unchecked slice fails |
| FastString.ConvertStrIndices | starlark_syntax/src/fast_string.rs:213-246 | on all paths the clamped character slice and its start; `None` exactly when the start is past the end after clamping, or one of the two shortcuts refuses |
| CodeMaps.New | starlark_syntax/src/codemap.rs:314-323 | the line table holds 0 and every position after a newline |
| CodeMaps.LineIsCount | starlark_syntax/src/codemap.rs:371-380 | the line of a position is the number of newlines before it |
| CodeMaps.FindLine | starlark_syntax/src/codemap.rs:371-380 | binary search finds that line and where it starts |
| CodeMaps.LineSpanCovers | starlark_syntax/src/codemap.rs:443-455 | the span of a position's line starts at the line and reaches beyond the position, or to the end of the source |
| CodeMaps.FindLineCol | starlark_syntax/src/codemap.rs:386-402 | line and column are what walking over all characters before the position gives, for every alignment |
| CodeMaps.ResolveSpan | starlark_syntax/src/codemap.rs:457-461 | both ends resolved |
| CodeMaps.WalkPrefix | starlark_syntax/src/codemap.rs:386-402 | line start plus characters since it equals the walk from the beginning |
| CodeMaps.ResolveMonotone | starlark_syntax/src/codemap.rs:386-402 | positions between characters are ordered as their lines and columns are, strictly: an order embedding |
| CodeMaps.ResolvedContainment | starlark_syntax/src/codemap.rs:652-660 | `contains` on resolved values agrees with `contains` on raw positions |
| CodeMaps.IntersectsMeansShared | starlark_syntax/src/codemap.rs:121-155 | `intersects` holds exactly when some position is in both spans; `merge` contains both |
| CodeMaps.ResolvedSpanHoldsItsEnds | starlark_syntax/src/codemap.rs:652-660 | a resolved span holds both its ends, what is between them, and nothing else |
| CodeMaps.PositionClips | starlark_lsp/src/definition.rs:247-254 | there is a position for every line and no other: the column after the line's start, or the line's end if that comes first |
| CodeMaps.PositionRecovered | starlark_lsp/src/definition.rs:247-254 | line begin plus column, clipped, gives the position back exactly if the line is ASCII up to it, and is otherwise too early |
| CodeMaps.PositionRecoveredOnAscii | starlark_lsp/src/definition.rs:247-254 | on ASCII source every position is recovered |
| CodeMaps.PositionNotRecovered | starlark_lsp/src/definition.rs:247-254 | a two-byte character after which the position found is inside the character |
| CodeMaps.LineSpanTrimNewline | starlark_syntax/src/codemap.rs:426-440 | the line without its terminator: a newline and one carriage return before it, or a carriage return at the end of the source |
| Binds.NewScope | starlark_lsp/src/bind.rs:105-134 | a name is bound to its first assignment and free when read and not assigned, whatever order hash maps are walked in |
| Binds.FirstSetSnoc | starlark_lsp/src/bind.rs:109-115 | a later assignment of a name does not replace the first |
| Binds.FirstsStep | starlark_lsp/src/bind.rs:109-128 | one bind keeps `bound` and `free` the firsts of the binds so far |
| BindTraversal.VisitExpr | starlark_lsp/src/bind.rs:203-228 | the traversal appends exactly the binds of the expression |
| BindTraversal.VisitComprehension | starlark_lsp/src/bind.rs:149-169 | the first `over` goes outside; targets, clauses and results share one inner scope |
| BindTraversal.DotAccess | starlark_lsp/src/bind.rs:173-201 | a chain becomes one dotted read; arguments of calls in it are visited; anything else is visited as an expression |
| BindTraversal.VisitTarget | starlark_lsp/src/bind.rs:230-233 | what a target reads is visited before its names are set |
| BindTraversal.VisitTargetExprs | starlark_syntax/src/syntax/uniplate.rs:590-607 | every expression inside a target is visited, in order |
| BindTraversal.VisitNames | starlark_syntax/src/syntax/uniplate.rs:631-643 | every name of a target is visited, in order |
| BindTraversal.VisitParameters | starlark_lsp/src/bind.rs:235-244 | types and defaults are read outside, names are set inside |
| BindTraversal.VisitStmt | starlark_lsp/src/bind.rs:250-337 | the traversal appends exactly the binds of the statement |
| BindTraversal.VisitDef | starlark_lsp/src/bind.rs:279-292 | return type, defaults and name outside, parameters and body in a scope of their own |
| BindTraversal.VisitAssign | starlark_lsp/src/bind.rs:293-317 | what is assigned to is read before it is set; `a += b` reads `a` as well |
| BindTraversal.VisitLoads | starlark_lsp/src/bind.rs:325-335 | each local name is set to the path of the load and the name in the other module, in order |
| BindTraversal.ModuleScope | starlark_lsp/src/bind.rs:339-343 | the scope describes the module's block; a name is bound to its first assignment there, with what assigns it and where, and what is free is read in the module where the scope says |
| Scoping.ExprReads | starlark_lsp/src/bind.rs:203-228 | the names an expression's binds read, inner scopes included, are exactly its free variables, and it sets none outside |
| Scoping.DotReads | starlark_lsp/src/bind.rs:173-201 | a dotted access loses no read, through calls or when it bails out |
| Scoping.TargetReadsAndSets | starlark_lsp/src/bind.rs:230-233 | a target reads the free names of its parts and sets exactly its names |
| Scoping.ClausesReads | starlark_lsp/src/bind.rs:149-169 | all clauses of a comprehension bind in one block |
| Scoping.StmtReadsAndSets | starlark_lsp/src/bind.rs:250-337 | a statement reads and binds in its block exactly the names the language says |
| Scoping.ModuleScope | starlark_lsp/src/bind.rs:339-343 | a module's scope is bound in what the module assigns and free in what it reads and never assigns, and every scope in it is sound |
| Scoping.ChainIsOneAccess | starlark_lsp/src/bind.rs:171-201 | `id.a.b(x).c` is one dotted access with its attributes in reading order, followed by the reads of the arguments |
| Shapes.ExprShape | starlark_lsp/src/bind.rs:203-228 | an expression's binds are its readings, with spans, and the blocks inside it, as the syntax tree has them |
| Shapes.DotShape | starlark_lsp/src/bind.rs:173-201 | a chain of attributes and calls is one reading of the name at its root and its attributes in reading order, if a name is at its root, and the arguments of its calls are visited |
| Shapes.TargetShape | starlark_lsp/src/bind.rs:230-233 | a target assigns its names in order and reads what says where its other parts are |
| Shapes.StmtShape | starlark_lsp/src/bind.rs:250-337 | a statement's binds are its assignments, by what and in which order, its readings, and the blocks inside it, at every depth |
| Shapes.LoadShape | starlark_lsp/src/bind.rs:325-335 | a load assigns each local name the name in the other module |
| Shapes.FirstSetIsFirst | starlark_lsp/src/bind.rs:109-115 | the first bind that sets a name is the first assignment of it in the block |
| Shapes.FreeIsRead | starlark_lsp/src/bind.rs:117-128 | what is free in a scope is read, at the span given, in it or in a scope inside it |
| AstSearch.FirstHint | starlark_lsp/src/definition.rs:547-603 | the answer of the first span that contains the position; none only if no span of a string, a load path or a loaded name does |
| AstSearch.PickBoth | starlark_lsp/src/definition.rs:547-556 | visiting one part after another finds what is first in both together |
| AstSearch.Search.VisitExpr | starlark_lsp/src/definition.rs:557-566 | finds what is first at the position among the strings in visiting order, and nothing more once something was found; a string at the position is answered with its span and text |
| AstSearch.Search.VisitStmt | starlark_lsp/src/definition.rs:553-592 | the same for statements, loads included |
| AstSearch.Search.VisitLoad | starlark_lsp/src/definition.rs:567-590 | the path of a load if it is at the position; otherwise the first pair with a name there, and for either of its names the name in the other module and its span |
| AstSearch.Search.VisitLoadArgs | starlark_lsp/src/definition.rs:574-588 | the first loaded pair of which either name is at the position leads to the name in the other module, at its span |
| AstSearch.StmtDescribed | starlark_lsp/src/definition.rs:547-603 | what can be found is exactly the strings, load paths and loaded pairs in the tree, each with its answer |
| AstSearch.AnswerTells | starlark_lsp/src/definition.rs:547-603 | the answer is of a string, a load path or a loaded pair of the tree that is at the position; none only if there is none |
| AstSearch.FindDefinitionFromAst | starlark_lsp/src/definition.rs:547-603 | a literal is a string of the tree at the position; a load path that of a load there; a loaded location comes from a pair with either name there, both spans and the name being those in the other module, the path the load's; none exactly if nothing of these is there |
| Definitions.SegmentAt | starlark_lsp/src/bind.rs:85-95 | the first segment that contains the position; none only if no segment does |
| Definitions.SearchIsWalk | starlark_lsp/src/definition.rs:278-381 | searching bottom-up and finishing in the enclosing blocks equals walking down with all enclosing blocks |
| Definitions.FindIsLexical | starlark_lsp/src/definition.rs:278-381 | bottom-up search equals the top-down walk that picks the first assignment in the innermost block that binds the name |
| Definitions.LookUpIsInnermost | starlark_lsp/src/definition.rs:281-304 | look-up gives the first assignment in the innermost enclosing block that has one: its place, and its module if it is a load |
| Definitions.LeftIsRead | starlark_lsp/src/definition.rs:278-381 | a name that a search leaves unresolved is read in the scope and not bound in it |
| Definitions.LeftIsFree | starlark_lsp/src/definition.rs:278-381 | so it is in the scope's `free` map and not in `bound` |
| Definitions.UnresolvedIsFree | starlark_lsp/src/definition.rs:278-381 | in a module it is a name the module reads and never binds |
| Definitions.AnswerIsLexical | starlark_lsp/src/definition.rs:240-435 | the answer to a request is lexical look-up at the position, or comes from a string or load there when nothing is read; the second look-up in the module scope never finds anything |
| Answers.LookUpResolves | starlark_lsp/src/definition.rs:281-304 | a name is given by the first assignment in the innermost enclosing block that assigns it, loads by path and name in the other module; it is unresolved only if no enclosing block assigns it |
| Answers.WalkFinds | starlark_lsp/src/definition.rs:278-381 | what is found is the answer for a reading at the position, with blocks around it that are each directly inside the next |
| Answers.WalkMisses | starlark_lsp/src/definition.rs:278-381 | nothing is found only where nothing is read, at any depth |
| Answers.AnswersAreLexical | starlark_lsp/src/definition.rs:240-435 | the answer at a position is for a reading of the program there: for its name, what gives the name by lexical scoping; for segment k > 0 of a chain also the k + 1 names up to it, in order; where nothing is read, that of a string or load in the tree |
| Answers.ReadingsAreAnswered | starlark_lsp/src/definition.rs:240-435 | a reading is answered for exactly if the position is in a segment of some reading of the program |
| FormatParsers.StartsOnce | starlark_syntax/src/dot_format_parser.rs:85-168 | the grammar is unambiguous: at most one piece can start a string |
| FormatParsers.StartedIsBlameless | starlark_syntax/src/dot_format_parser.rs:85-168 | where a piece starts, none of the four errors applies |
| FormatParsers.BlamesOnce | starlark_syntax/src/dot_format_parser.rs:85-168 | at most one of the four errors applies |
| FormatParsers.ReasonMeans | starlark_syntax/src/dot_format_parser.rs:85-168 | each error, told by the bytes where reading stopped |
| FormatParsers.PrintSpells | starlark_syntax/src/dot_format_parser.rs:85-168 | a piece spells its token: text as it is with doubled braces single, a capture between its braces, its conversion after `!` |
| FormatParsers.StartSpells | starlark_syntax/src/dot_format_parser.rs:85-168 | the bytes read for a token spell it |
| FormatParsers.CaptureStands | starlark_syntax/src/dot_format_parser.rs:94-146 | in the string, a capture is at `pos` and ends before `}`, `!s}` or `!r}`; its conversion is `Repr` exactly in the last case |
| FormatParsers.ReadCovers | starlark_syntax/src/dot_format_parser.rs:85-168 | a token read covers the bytes from where reading was to where it went on |
| FormatParsers.FormatParser.Eat | starlark_syntax/src/dot_format_parser.rs:186-190 | returns the next `n` bytes, which end between characters, and moves past them |
| FormatParsers.FormatParser.Next | starlark_syntax/src/dot_format_parser.rs:85-168 | reads the piece the rest starts with, giving its token with the exact position; nothing at the end; otherwise the reason why no piece starts there |
| FormatParsers.FormatParser.NextAfterOpen | starlark_syntax/src/dot_format_parser.rs:94-146 | the same at an opening brace; the token is spelled by the bytes read: `Repr` when they end in `!r}`, `Str` when in `}` or `!s}` |
| FormatParsers.FormatParser.NextConversion | starlark_syntax/src/dot_format_parser.rs:109-132 | the same at the exclamation mark of a capture |
| FormatParsers.Normalise | starlark_syntax/src/dot_format_parser.rs:85-168 | every list of pieces has a normal form that prints alike |
| FormatParsers.PrintOnce | starlark_syntax/src/dot_format_parser.rs:85-168 | printing is injective on normal lists |
| FormatParsers.TokensTile | starlark_syntax/src/dot_format_parser.rs:37-50 | the pieces behind the tokens tile the string, and a capture's `pos` is where its text is |
| FormatParsers.StuckIsNotPrinted | starlark_syntax/src/dot_format_parser.rs:85-168 | a string on which reading gets stuck is not a concatenation of pieces |
| FormatParsers.ParseAll | starlark_syntax/src/dot_format_parser.rs:78-168 | reading to the end terminates and succeeds exactly on concatenations of pieces; then the tokens tile the string, each spelled by its bytes, and a capture stands at its `pos` with `Repr` exactly when `!r}` follows; otherwise the reason at the place it stopped |

## Left out

- ConvertStrIndices: strings of 2^31 characters or more when an index is negative and the length is needed; the code casts the length to `i32` there.
- FindDefinitionAtLocation: `begin + col` is computed without bound, while the code adds 32-bit integers; a column near 2^32 would wrap.
- FindDefinitionAtLocation: spans are returned as byte positions; resolving them is `CodeMaps.ResolveSpan`. Queries for exported and loaded symbols are left out.
- New: sources of 4 GiB or more, whose positions the code truncates to 32 bits.
- SortKeys: which pairs the standard library's sort compares is not specified, so for comparisons that panic on some pairs and not on others the loss of entries is bounded from both sides (`EntriesKept`, `EntriesLost`); it is exact where single keys decide. Keys are compared by one function for both `<=` and `cmp`, and comparisons have no state of their own.
- StableSort: newer versions of the standard library may also panic by themselves when the order is not total; here only comparisons panic.
- KeyOps: `Eq` and `Hash` that panic.
- HashTable: a stand-in for hashbrown with buckets, tombstones and spare room; probing, groups and SIMD tags are not modelled beyond the tag comparison.
- Vec2: one allocation with computed layout, `MaybeUninit`, `Send` and `Sync`; the columns are two arrays. `shrink_to_fit` and iterators are plain and left out.
- FindHashInArray: the vector instructions; a vector comparison is a function that gives the first equal lane.
- SmallMap: `iter_mut_unchecked`, unchecked inserts of present keys and wrong hashes from `new_unchecked`, which the documentation excludes; serialisation.
- SortedMap: `deserialize`, which does not sort, and mutable access to values.
- UnorderedMap: `retain`, the entry interfaces and `map_values`; the table is a sequence in arbitrary order.
- Union: its `size_hint`, which is that of the chained iterators.
- CodeMap: `CodeMapImpl::Native`, `CodeMapId` identity and display formatting.
- FormatParser: the callers in `format` and f-strings, which only consume tokens; error texts are the enumeration `Reason`.
- Syntax: expressions that bind nothing are `Node` with their children in visiting order; other literals than strings, operators and payloads are dropped.
- OrderedMap, OrderedSet, SortedSet and UnorderedSet delegate to the maps modelled here.
- StmtBinds: control-flow marks (`Flow`) are placed as the traversal places them, but nothing is proved of them; no operation modelled here reads them.
- FindDefinitionAtLocation: of readings that overlap at a position, which a parsed program does not have, the one answered for is the first in traversal order.
- The language server's protocol, completion, the debug adapter, the evaluator, bytecode, typing, the heap and the procedural macros.
