# glasket/datastructures — a verified Dafny model

This project models the core of the Go module `github.com/glasket/datastructures`:

- the slice helpers `Chunk` and `Join`;
- the `enumerable`/`enumerator` pair: a slice with a cursor that starts before the first
  element and yields the zero value once it runs off the end;
- the sequential LINQ-style operators `Each`, `All`, `Any`, `Count`, `Map`, `Filter`,
  `Reduce`, `Range` and `Sum`;
- their parallel counterparts, which chunk the input into at most `cc` partitions and run
  one goroutine per partition;
- the containers:
  - the hash set with a cached value slice and a version counter;
  - the plain map-backed set;
  - the array list;
  - the ordered map (a map plus a key slice kept in insertion order);
  - the read-only tuple.

Pure computations are Dafny functions. Loops are methods with loop invariants, proved
against functions that specify them:

- `SliceUtils.Chunked`, `SliceUtils.Flatten`;
- `Sequential.CountOf`, `Sequential.FilterOf`, `Sequential.FoldLeft`, `Sequential.SumOf`.

Objects whose methods update fields are classes:

- `Enumerator.Enumerator`, `HashSet.Set`, `MapSet.Set`, `ArrayList.List`,
  `OrderedMaps.OrderedMap`.

Each class has `modifies`/`reads` frames. A method's `ensures` clauses give the new value of
every field it may change, including the other operand's cache where a set operation reads it
through `Values`.

## Concurrency

The parallel operators are sequential in the model. A `schedule` is any permutation of the
partition indices; `IsSchedule` says it is one. Each worker runs to completion in its turn.
Every result is proved for every schedule:

- **Sum and count.** `SumPermute` shows that the order of the per-worker contributions does
  not change the total.
- **Each.** `BagPermute` shows that the order does not change the multiset of visited values.
- **Map, Filter and Reduce.** Each worker writes only its own region of an array, so order
  does not matter at all.

ParallelAll and ParallelAny share a buffered `quit` channel of capacity `cc`:

- It is modelled as a token counter.
- A worker that finds a deciding element sets the shared flag and sends one token.
- A worker that finds a token waiting consumes it and stops early.
- A receive consumes the token it receives. So one early-stop message stops at most one other
  worker, and later workers still run to the end of their partitions. The result does not
  depend on this: `RunAllWorkers` and `RunAnyWorkers` are proved for every schedule.

ParallelReduce never uses its `initial` argument. Every partial starts at the zero value of
`R`, and slots with no partition stay zero. `Parallel.ParallelReduce`'s ensures,
`r == combiner(Partials(values, f, zero, cc))`, states this: `initial` does not appear in it.
`Parallel.ParallelReduceIgnoresInitial` works out the consequence for sums: the parallel
result falls short of the sequential Reduce from `initial` by exactly `initial`.

## Where the code is followed over its comments

- **Chunk.** The doc comment of `Chunk` (utils/sliceutils/slice.go:16) says the result has
  `chunkCount` slices. The code makes `ceil(n / size)` slices of size `ceil(n / chunkCount)`,
  which can be fewer: `Chunk([1,2,3,4], 3)` gives two slices (`SliceUtils.ChunkFourIntoThree`).
  The model follows the code.
- **Range with start equal to end.** The doc comment (interfaces/enumerator/functions.go:99)
  promises the interval `[start, end)`, which would be empty. The code returns the one-element
  range `[start]` (functions.go:113-114), and `TestRange` expects that. `Sequential.Range`
  follows the code.

## Model

| member | source | states |
|---|---|---|
| SliceUtils.CeilDivBounds | utils/mathutils/math.go:13-15 | the exact integer ceiling: `q * b >= a`, `q * b - b < a` for a > 0, at least 1 for a > 0, 0 for a = 0 |
| SliceUtils.ChunkArithmetic | utils/sliceutils/slice.go:21-29 | every chunk i below the count starts at `i * size`, is non-empty, at most `size` long, full-size unless it is last, starts where the previous one ends, and the last ends at n |
| SliceUtils.ChunkCountAtMost | utils/sliceutils/slice.go:21-29 | the loop makes at most `chunkCount` chunks, and none exactly when the input is empty |
| SliceUtils.ChunkedShape | utils/sliceutils/slice.go:21-29 | at most k pieces; no pieces iff input empty; every piece non-empty, at most `size` long, full-size except the last |
| SliceUtils.ChunkedPrefix | utils/sliceutils/slice.go:23-29 | concatenating the first j chunks gives the input up to the end of chunk j-1 |
| SliceUtils.ChunkAdjacent | utils/sliceutils/slice.go:23-27 | chunk 0 starts at 0 and every later chunk starts where its predecessor ends |
| SliceUtils.ChunkedFlatten | utils/sliceutils/slice.go:20-31 | joining the chunks gives back the input (Join undoes Chunk) |
| SliceUtils.ChunkedAligned | utils/sliceutils/slice.go:21-29 | two inputs of equal length are chunked into pieces of equal lengths |
| SliceUtils.ChunkedEmpty | utils/sliceutils/slice.go:23 | an empty input gives no chunks |
| SliceUtils.FlattenLength | utils/sliceutils/slice.go:45-47 | the joined length is the sum of the piece lengths |
| SliceUtils.FlattenConcat | utils/sliceutils/slice.go:53-55 | joining distributes over concatenation of piece lists |
| SliceUtils.FlattenEmpties | utils/sliceutils/slice.go:53-55 | joining only empty pieces gives the empty slice |
| SliceUtils.Chunk | utils/sliceutils/slice.go:20-31 | the loop's result is `Chunked(s, chunkCount)`, whose shape and round trip the lemmas above give; an empty slice gives no chunks, also when chunkCount is 0 |
| SliceUtils.Join | utils/sliceutils/slice.go:42-57 | the result is the concatenation of the pieces, of total length; the capacity is the computed sum when no length is given, else `length[0]` if positive, else 0 |
| SliceUtils.ChunkEightIntoThree | utils/sliceutils/slice_test.go:9-30 | `[1..8]` in 3 chunks is `[[1,2,3],[4,5,6],[7,8]]` |
| SliceUtils.ChunkFourIntoThree | utils/sliceutils/slice.go:15-19 | `[1,2,3,4]` in 3 chunks gives only two chunks `[[1,2],[3,4]]` |
| Enumerator.Enumerable.Values | interfaces/enumerator/enumerator.go:46-48 | the values are the wrapped slice itself, the same sequence a cursor from GetEnumerator walks |
| Enumerator.Enumerable.GetEnumerator | interfaces/enumerator/enumerator.go:38-44 | a fresh, valid cursor over the same elements, positioned before the first, holding the zero value |
| Enumerator.Enumerator.constructor | interfaces/enumerator/enumerator.go:38-44 | the initial cursor state: position -1, current is zero |
| Enumerator.Enumerator.Current | interfaces/enumerator/enumerator.go:91-93 | the value the cursor holds (the one Next last set); on a valid cursor that has not yet moved, the zero value |
| Enumerator.Enumerator.Next | interfaces/enumerator/enumerator.go:95-104 | succeeds iff another element exists; then advances by one and holds that element; otherwise stays put and holds the zero value |
| Enumerator.Enumerator.Reset | interfaces/enumerator/enumerator.go:106-109 | back to position -1 with the zero value |
| Enumerator.Traverse | interfaces/enumerator/enumerator.go:95-104 | a `for Next()` loop from a fresh cursor yields exactly the elements, in order, with one `true` per element, and leaves the zero value |
| Enumerator.TraverseTwice | interfaces/enumerator/enumerator.go:95-109 | traversing, resetting and traversing again yields the same elements twice, and leaves the cursor exhausted on its last position holding the zero value |
| Enumerator.GetSliceEnumerable | interfaces/enumerator/enumerator.go:51-55 | the enumerable's values are the slice itself |
| Enumerator.GetMapKeyEnumerable | interfaces/enumerator/enumerator.go:58-66 | the values list every key of the map exactly once, in some order |
| Enumerator.GetMapValueEnumerable | interfaces/enumerator/enumerator.go:69-77 | the values are the map's values along some duplicate-free order of all its keys |
| Enumerator.GetMapEnumerable | interfaces/enumerator/enumerator.go:81-89 | the values are the (key, value) pairs along some duplicate-free order of all keys |
| Sequential.CountOfBound | interfaces/enumerator/functions.go:44-53 | the count is at most the length, and equals the length of the filtered sequence |
| Sequential.FilterOfContents | interfaces/enumerator/functions.go:66-75 | every kept value satisfies f, and each value occurs as often as in the input if f holds of it, else not at all |
| Sequential.CountOfConcat | interfaces/enumerator/functions.go:44-53 | counting is additive over concatenation |
| Sequential.FilterOfConcat | interfaces/enumerator/functions.go:66-75 | filtering distributes over concatenation |
| Sequential.FoldLeftConcat | interfaces/enumerator/functions.go:78-85 | folding over `a + b` is folding b from the fold of a |
| Sequential.SumOfConcat | interfaces/enumerator/functions.go:126-133 | the sum is additive over concatenation |
| Sequential.SumIsFold | interfaces/enumerator/functions.go:126-133 | Sum is the left fold of `+` from 0 (Sum agrees with Reduce) |
| Sequential.Each | interfaces/enumerator/functions.go:14-19 | f is applied to exactly the values, in order |
| Sequential.All | interfaces/enumerator/functions.go:22-30 | true iff f holds of every value; on false, evaluation stops at the first failing value |
| Sequential.Any | interfaces/enumerator/functions.go:33-41 | true iff f holds of some value; on true, evaluation stops at the first passing value |
| Sequential.Count | interfaces/enumerator/functions.go:44-53 | the number of values satisfying f, at most the length |
| Sequential.Map | interfaces/enumerator/functions.go:56-63 | same length, element i is `f` of input element i |
| Sequential.Filter | interfaces/enumerator/functions.go:66-75 | the values satisfying f, in input order |
| Sequential.Reduce | interfaces/enumerator/functions.go:78-85 | the left fold of f from `initial` |
| Sequential.Range | interfaces/enumerator/functions.go:101-123 | ascending `start..end-1` when start < end, descending `start..end+1` when start > end, `[start]` when equal |
| Sequential.Sum | interfaces/enumerator/functions.go:126-133 | the sum of the values |
| Parallel.IdentitySchedule | interfaces/enumerator/parallel.go:43-56 | running workers in index order is one of the schedules |
| Parallel.ScheduleDropLast | interfaces/enumerator/parallel.go:43-56 | removing the last worker's turn from a schedule leaves a schedule of the others |
| Parallel.PermuteSplit | interfaces/enumerator/parallel.go:43-56 | the contributions in schedule order split around the last worker's turn |
| Parallel.SumPermute | interfaces/enumerator/parallel.go:126-147 | the sum of per-worker contributions does not depend on the schedule |
| Parallel.BagPermute | interfaces/enumerator/parallel.go:43-56 | the multiset of values visited by all workers does not depend on the schedule |
| Parallel.AllOfFlatten | interfaces/enumerator/parallel.go:61-90 | f holds of every value iff it holds of every value of every partition |
| Parallel.AnyOfFlatten | interfaces/enumerator/parallel.go:95-123 | f holds of some value iff it holds of some value in some partition |
| Parallel.CountOfFlatten | interfaces/enumerator/parallel.go:126-147 | the per-partition counts add up to the count over the whole input |
| Parallel.FilterOfFlatten | interfaces/enumerator/parallel.go:174-192 | joining per-partition filters gives the filter of the whole input |
| Parallel.AsParallel | interfaces/enumerator/parallel.go:34-40 | the partitions are `Chunk(values, cc)`, at most cc of them, joining back to the values; the length is recorded |
| Parallel.EachWorker | interfaces/enumerator/parallel.go:48-53 | a worker applies f to exactly its partition, in order |
| Parallel.ParallelEach | interfaces/enumerator/parallel.go:43-56 | under every schedule f is applied once to every value (same multiset, same count) |
| Parallel.AllWorker | interfaces/enumerator/parallel.go:71-85 | a worker either finds a failing value (clears the flag, sends one token), or takes a waiting token and stops, or checks its whole partition and changes nothing; the flag is never set back, the channel stays within capacity, and a passing partition leaves the flag alone |
| Parallel.RunAllWorkers | interfaces/enumerator/parallel.go:68-89 | under every schedule the flag ends true iff every partition passes; the channel never overflows |
| Parallel.ParallelAll | interfaces/enumerator/parallel.go:61-90 | true iff f holds of every value |
| Parallel.AnyWorker | interfaces/enumerator/parallel.go:104-118 | a worker either finds a passing value (sets the flag, sends one token), or takes a waiting token and stops, or checks its whole partition and changes nothing; the flag is never cleared, the channel stays within capacity, and a partition with no passing value leaves the flag alone |
| Parallel.RunAnyWorkers | interfaces/enumerator/parallel.go:101-122 | under every schedule the flag ends true iff some partition has a passing value |
| Parallel.ParallelAny | interfaces/enumerator/parallel.go:95-123 | true iff f holds of some value |
| Parallel.CountWorker | interfaces/enumerator/parallel.go:133-142 | a worker adds the number of values of its partition satisfying f |
| Parallel.ParallelCount | interfaces/enumerator/parallel.go:126-147 | under every schedule the atomic total is the sequential count |
| Parallel.RegionOfBounds | interfaces/enumerator/parallel.go:157-165 | every result index lies inside the region of exactly one worker |
| Parallel.RegionOrder | interfaces/enumerator/parallel.go:157-165 | earlier workers' regions end before later workers' regions start |
| Parallel.RegionsDisjoint | interfaces/enumerator/parallel.go:157-165 | an index inside worker w's region belongs to w alone |
| Parallel.ChunkedAt | interfaces/enumerator/parallel.go:157-165 | chunk w of the input and chunk w of the result array cover the same positions |
| Parallel.MapWorker | interfaces/enumerator/parallel.go:160-165 | a worker writes `f` of its partition into its own region and nothing outside it |
| Parallel.RunMapWorkers | interfaces/enumerator/parallel.go:157-167 | under every schedule position `start(w) + i` of the result holds `f(parts[w][i])` |
| Parallel.ParallelMap | interfaces/enumerator/parallel.go:152-169 | same length, element i is `f` of input element i |
| Parallel.FilterWorker | interfaces/enumerator/parallel.go:181-188 | a worker appends its partition's kept values to its own slot and touches no other slot |
| Parallel.RunFilterWorkers | interfaces/enumerator/parallel.go:178-190 | under every schedule slot w is the filter of partition w; unused slots stay empty |
| Parallel.JoinedSlots | interfaces/enumerator/parallel.go:191 | joining the slots gives the filter of the whole input |
| Parallel.ParallelFilter | interfaces/enumerator/parallel.go:174-192 | the values satisfying f, in input order, under every schedule |
| Parallel.Partials | interfaces/enumerator/parallel.go:199 | one partial per concurrency slot (cc of them) |
| Parallel.ReduceWorker | interfaces/enumerator/parallel.go:203-209 | a worker folds its partition into its own partial and touches no other |
| Parallel.ParallelReduce | interfaces/enumerator/parallel.go:196-213 | the combiner applied to the cc partials: partial w is the fold of chunk w from the zero value, unused slots zero; `initial` is not used |
| Parallel.SumOfFlatten | interfaces/enumerator/parallel.go:196-213 | summing per-partition sums gives the sum of the whole input |
| Parallel.SumOfZeros | interfaces/enumerator/parallel.go:199 | zero-valued unused partials add nothing |
| Parallel.ParallelReduceIsSum | interfaces/enumerator/parallel_test.go:113-128 | reducing with `+` from 0 and combining with Sum gives the sequential sum, for every cc |
| Parallel.ParallelReduceIgnoresInitial | interfaces/enumerator/parallel.go:196-213 | for every input, cc and `initial`, the parallel sum plus `initial` is the sequential Reduce of `+` from `initial`, so the two differ whenever `initial` is not 0 |
| Sequential.FoldAddShift | interfaces/enumerator/functions.go:78-85 | reducing with `+` from `initial` gives `initial` plus the sum |
| Parallel.EightElementFilter | interfaces/enumerator/parallel_test.go:96-111 | the even values of `[1..8]`: four of them, `[2,4,6,8]` in order |
| Parallel.EightElementPartials | interfaces/enumerator/parallel.go:196-213 | sum partials of `[1..8]` with cc = 3 are `[6,15,15]`, combining to 36 |
| HashSet.Set.New | collection/set/hashset/set.go:28-34 | an empty set, nothing cached, version 0 |
| HashSet.NewFromSlice | collection/set/hashset/set.go:41-47 | the set of the slice's values (no more members than values), version = number of members, nothing cached |
| HashSet.Set.Add | collection/set/hashset/set.go:52-59 | a present value changes nothing; otherwise the value is added, the version rises by one and the cache is dropped |
| HashSet.Set.Remove | collection/set/hashset/set.go:64-71 | an absent value changes nothing; otherwise the value is removed, the version rises by one and the cache is dropped |
| HashSet.Set.Clear | collection/set/hashset/set.go:74-78 | the set is empty, the cache dropped, the version raised by one |
| HashSet.Set.Contains | collection/set/hashset/set.go:81-84 | membership agrees with the cached slice when one exists |
| HashSet.Set.IsEmpty | collection/set/hashset/set.go:92-94 | true iff no members (and iff the cached slice is empty) |
| HashSet.Set.Count | collection/set/hashset/set.go:97-99 | the number of members equals the cached slice's length |
| HashSet.Set.Values | collection/set/hashset/set.go:102-111 | lists every member exactly once; an existing cache is returned as is, otherwise the new slice becomes the cache |
| HashSet.Set.Equals | collection/set/hashset/set.go:116-127 | true iff both sets have the same members (the count shortcut is sound) |
| HashSet.Set.Union | collection/set/hashset/set.go:134-145 | a fresh, uncached set of the members of either, one version per member; both operands keep their members, and the other operand ends cached (keeping an existing cache) |
| HashSet.Set.AddMembers | collection/set/hashset/set.go:137-139 | adding every member of a set adds exactly those values, leaves the cache empty, and raises the version by one per value that was not yet present |
| HashSet.Set.AddSlice | collection/set/hashset/set.go:41-47 | adding a slice adds its values, leaves the cache empty, and raises the version by one per value that was not yet present |
| HashSet.Set.Intersection | collection/set/hashset/set.go:152-162 | a fresh, uncached set of the members of both, one version per member |
| HashSet.Set.Complement | collection/set/hashset/set.go:169-179 | a fresh, uncached set of this set's members not in the other, one version per member |
| HashSet.Set.RelativeComplement | collection/set/hashset/set.go:186-188 | a fresh, uncached set of the other's members not in this set, one version per member |
| HashSet.Set.SymmetricDifference | collection/set/hashset/set.go:195-200 | a fresh, uncached set of the members of exactly one operand, stated both as union minus intersection and as the two differences, one version per member; the operands keep their members and the other ends cached |
| HashSet.Set.SubsetOf | collection/set/hashset/set.go:203-215 | true iff every member is in the other (the count shortcut is sound) |
| HashSet.Set.SupersetOf | collection/set/hashset/set.go:218-220 | true iff every member of the other is in this set |
| HashSet.Set.UnmarshalJSON | collection/set/hashset/set.go:233-244 | members become the decoded values, version their number; an error "duplicates were present" iff the decoded list repeats a value |
| MapSet.Set.NewSet | set/set.go:19-21 | an empty set |
| MapSet.NewSetFromSlice | set/set.go:28-34 | the set of the slice's values; as many members as values iff no value repeats |
| MapSet.Set.Insert | set/set.go:39-45 | a present value gives the already-present error and no change; otherwise exactly that value is added |
| MapSet.Set.Remove | set/set.go:50-56 | an absent value gives the not-present error and no change; otherwise exactly that value is removed |
| MapSet.Set.Clear | set/set.go:59-63 | the set is empty |
| MapSet.Set.Values | set/set.go:77-87 | lists every member exactly once, as many values as members |
| MapSet.Set.Equals | set/set.go:92-103 | true iff both have the same members |
| MapSet.Set.InsertMembers | set/set.go:108-119 | inserting a set of values adds exactly those |
| MapSet.Set.Union | set/set.go:108-119 | a fresh set of the members of either |
| MapSet.Set.Intersection | set/set.go:124-134 | a fresh set of the members of both |
| MapSet.Set.Difference | set/set.go:139-149 | a fresh set of this set's members not in the other |
| MapSet.Set.SymmetricDifference | set/set.go:154-159 | members of exactly one operand, in both forms |
| MapSet.Set.SubsetOf | set/set.go:162-174 | true iff every member is in the other |
| MapSet.Set.SupersetOf | set/set.go:177-179 | true iff every member of the other is in this set |
| MapSet.Set.UnmarshalJSON | set/set.go:197-208 | members become the decoded values; the duplicates error iff a value repeats |
| ArrayList.List.New | collection/list/arraylist/list.go:26-30 | an empty list |
| ArrayList.List.NewFromSlice | collection/list/arraylist/list.go:32-36 | the list holds the slice's values |
| ArrayList.List.Add | collection/list/arraylist/list.go:38-40 | appends the value; the old elements are a prefix |
| ArrayList.List.Remove | collection/list/arraylist/list.go:42-48 | an absent value changes nothing; otherwise the first occurrence is removed, so the multiset loses exactly one copy |
| ArrayList.List.InsertAt | collection/list/arraylist/list.go:50-60 | for `0 <= i <= len` the value is inserted at i (earlier elements unchanged, later ones shifted); otherwise out-of-bounds and no change |
| ArrayList.InsertAtRemoveAt | collection/list/arraylist/list.go:50-68 | removing at i undoes inserting at i; insertion adds exactly one copy of the value |
| ArrayList.List.RemoveAt | collection/list/arraylist/list.go:62-68 | for `0 <= i < len` the element at i is removed; otherwise out-of-bounds and no change |
| ArrayList.List.Get | collection/list/arraylist/list.go:70-75 | in bounds: the element and no error; out of bounds: the zero value and the out-of-bounds error |
| ArrayList.List.Set | collection/list/arraylist/list.go:77-83 | in bounds: only element i changes, and Get then returns the new value; otherwise out-of-bounds and no change |
| ArrayList.List.Clear | collection/list/arraylist/list.go:93-95 | the list is empty |
| ArrayList.List.Contains | collection/list/arraylist/list.go:97-104 | true iff the value occurs |
| ArrayList.List.IsEmpty | collection/list/arraylist/list.go:110-112 | true iff there are no elements |
| ArrayList.List.IndexOf | collection/list/arraylist/list.go:114-121 | the index of the first occurrence and no error; -1 and not-found when absent |
| ArrayList.List.CheckBounds | collection/list/arraylist/list.go:127-132 | no error iff `0 <= i < len`, otherwise out-of-bounds for i |
| OrderedMaps.OrderedMap.NewOrderedMap | orderedmap/orderedmap.go:19-24 | an empty map with no keys |
| OrderedMaps.OrderedMap.Keys | orderedmap/orderedmap.go:27-29 | lists every key exactly once |
| OrderedMaps.OrderedMap.Get | orderedmap/orderedmap.go:32-39 | a present key gives its value and no error; an absent one the zero value and not-present |
| OrderedMaps.OrderedMap.Set | orderedmap/orderedmap.go:44-49 | the mapping is updated; a new key goes to the end of the order, an existing key keeps its place; Get then returns the value |
| OrderedMaps.OrderedMap.SetAndUpdate | orderedmap/orderedmap.go:52-73 | the mapping is updated and the key moves to (or is appended at) the end of the order; all other keys keep their relative order |
| OrderedMaps.MoveToEnd | orderedmap/orderedmap.go:56-65 | the rebuilt key slice is the old one with key i taken out and put last (same length, same multiset) |
| OrderedMaps.OrderedMap.Remove | orderedmap/orderedmap.go:78-90 | an absent key gives not-present and no change; a present key leaves both the mapping and the order |
| OrderedMaps.OrderedMap.Contains | orderedmap/orderedmap.go:93-96 | true iff the key is mapped, which is iff it is in the order |
| OrderedMaps.OrderedMap.Count | orderedmap/orderedmap.go:99-101 | the length of the key order, which is the number of entries |
| Tuples.NewTuple | collection/tuple/tuple.go:15-19 | the tuple has the values' count, every index below it is in bounds, and Get returns each value with no error |
| Tuples.Tuple.Find | collection/tuple/tuple.go:21-28 | the first position at or after `from` holding v, or the end if none |
| Tuples.Tuple.Contains | collection/tuple/tuple.go:21-28 | true iff the value occurs |
| Tuples.Tuple.IsEmpty | collection/tuple/tuple.go:34-36 | true iff the count is 0, iff there are no elements |
| Tuples.Tuple.IndexOf | collection/tuple/tuple.go:42-49 | the first index of the value and no error; `(-1, not-found)` when absent |
| Tuples.IndexOfIsFirst | collection/tuple/tuple.go:21-49 | IndexOf succeeds iff Contains holds, and then returns the first index |
| Tuples.Tuple.CheckBounds | collection/tuple/tuple.go:58-63 | no error iff `0 <= i < count`, otherwise out-of-bounds for i |
| Tuples.Tuple.Get | collection/tuple/tuple.go:51-56 | in bounds: the element and no error; otherwise the zero value and out-of-bounds |
| Tuples.GetIndexOf | collection/tuple/tuple.go:42-56 | getting at the index IndexOf returns gives back the value |

## Left out

- **Goroutines.** `sync.WaitGroup`, atomics and the real interleavings of the parallel
  operators are not modelled. Each worker runs to completion within an arbitrary schedule.
  Interleavings in the middle of a worker are not modelled.
- **The global concurrency setting.** `cc` and `SetConcurrency` are not modelled. `cc` is a
  parameter and must be at least 1.
- **`IntDivCeil`.** It rounds a floating-point quotient. The model uses the exact integer
  ceiling, so float64 rounding of lengths above 2^53 is not modelled.
- **Chunk with chunkCount 0 or negative.**
  - A negative chunkCount panics in `make([]S, 0, chunkCount)` (utils/sliceutils/slice.go:22).
    The model's `nat` parameter excludes it.
  - With chunkCount 0 and an empty slice the loop does not run, and the Go result is the empty
    slice. `SliceUtils.Chunk` models this case.
  - With chunkCount 0 and a non-empty slice the Go code converts an infinite chunk size to
    `int`. The result depends on the platform. Chunk requires `chunkCount >= 1` there.
- **Parallel operators with cc 0.** They require `cc >= 1`, so the empty input with cc 0 is not
  modelled for them.
- **Go zero values.** In the enumerator, Get, ParallelMap and ParallelReduce the generic zero
  value `*new(V)` is an explicit `zero` parameter or the Dafny default value.
- **Map iteration order.** It is unspecified. The map enumerables and the sets' `Values` are
  proved for some duplicate-free order, not a particular one.
- **Numeric types.** Integers are unbounded:
  - `Range`'s unsigned-type adjustment is not modelled.
  - `Sum` over floats and complex numbers is not modelled.
  - The `int64` counter of `ParallelCount` cannot overflow in the model.
- **Slice aliasing.** The model holds values, not shared slices:
  - Chunk pieces are views of the input;
  - `NewFromSlice` shares the caller's slice;
  - `append` may write into shared backing arrays.
- **Capacity hints.** The `size` arguments of the constructors and `make` capacities do not
  affect contents. The parameters are kept but have no effect.
- **Outside the model.** Text encoding is not modelled. This covers JSON `MarshalJSON`,
  `json.Unmarshal` parse errors and `String()` methods. `UnmarshalJSON` takes the already
  decoded slice.
- **Interface-only files.** collection/collection.go, collection/list/list.go and
  interfaces/iterator/iterator.go hold only interfaces.
- **Delegating methods.** Methods that only hand on to the enumerables are not separate
  members: collection/set/hashset/enumerator.go's `GetEnumerator` and the lists' `ToSlice`
  and `GetEnumerator`.
- **Each's side effect.** The effect of f in `Each` and `ParallelEach` is modelled as the log
  of the arguments f receives.
- **Error values.** Go `error` values are datatypes; only the hash set's message text is kept.
- **Parallel enumerator on the caller's values.** The `ToSlice()` call through `IEnumerable`
  is taken to be `Values()`.
- HashSet.Set.Contains, HashSet.Set.Count: stated only against the cached slice. Without a
  cache they are the set's own membership and size.
- MapSet.Set.Contains, MapSet.Set.Count, ArrayList.List.Count, Tuples.Tuple.Count: these are
  helper functions without their own contract. Each is the membership or size of the
  underlying collection.
- OrderedMaps.OrderedMap.Remove: the Go code searches `keys` for the index. The model relies
  on the invariant that every map key is in `keys`, so the "not found in keys" case cannot
  arise.
