# Approximate path partitioning, modelled in Dafny

This project models the class `ApproximateAlgorithm`
(`src/main/java/spark/ApproximateAlgorithm.java`). The class splits the
end-to-end paths of a DAG into at most `k = 2` groups. Its goal is that the
paths passing a vertex share a group wherever the group size allows.

The work has two stages.

- `initialize` indexes the paths. It builds `vertexPath`, which maps each
  vertex to the paths that pass it at a non-final position. It builds
  `vertexWeight`, which gives each vertex the summed length of those paths.
  It starts the partition `result` with one singleton group per path.
- `approximateAlgorithm` then runs three phases over that partition:
  1. Every vertex of in-degree zero goes through `mergeVertex`.
  2. Every weighted vertex goes, in ascending order of weight, through the
     same merge. A vertex passed by a single path is recorded at once.
  3. While more than `k` groups remain, the two smallest groups are joined.

`mergeVertex(v)` collects the groups holding a path through `v`.

- If there is exactly one such group, it answers yes.
- Otherwise, if their summed size exceeds the capacity `ceil(n / k)`, it
  answers no and changes nothing.
- Otherwise it joins them into the first one found and answers yes.

The model is split into five modules.

- `Sorting` (`sorting.dfy`): a stable sort by an integer key. It models
  `Collections.sort` in phases 2 and 3. A stable sort's output is unique,
  which `SortedStableUnique` proves.
- `Groups` (`groups.dfy`): groups as lists of path positions and the
  partition as a list of groups. It holds the discovery of touched groups,
  the join, the phase-3 step, and their properties.
- `PathIndex` (`path_index.dfy`): the vertex index and the weight table as
  functions of the path list. It also holds the step-by-step build that
  `initialize` performs, and the proof that the build ends in that index.
- `Phases` (`phases.dfy`): `mergeVertex` and the three phases as functions
  on values. A phase threads a `Progress` through its steps. A `Progress` is
  the partition, the recorded vertices (`vertexSet`) and the vertices
  reported as "size overflow, not merged".
- `Approximate` (`approximate_algorithm.dfy`): the class itself. Its methods
  update `result`, `vertexPath`, `vertexWeight` and `vertexSet` with loops,
  as the source does. Each method is proved to end in the state the `Phases`
  and `PathIndex` functions give.

The whole run ends in a valid partition of the paths. It has at most `K`
groups, and at least one group when there is at least one path. Every
recorded vertex has all its paths in one group. Every weighted vertex is
either recorded or reported, and every single-path vertex is recorded.

## Model

| member | source | states |
|---|---|---|
| Sorting.Insert | src/main/java/spark/ApproximateAlgorithm.java:77 | inserting into a list adds exactly that element to its multiset |
| Sorting.SortBy | src/main/java/spark/ApproximateAlgorithm.java:77 | the sorted list is a permutation of the input and is ordered by the key |
| Sorting.InsertSorted | src/main/java/spark/ApproximateAlgorithm.java:77 | inserting into a key-ordered list keeps it key-ordered |
| Sorting.InsertStable | src/main/java/spark/ApproximateAlgorithm.java:77 | insertion puts the new element after every element with the same key |
| Sorting.SortStable | src/main/java/spark/ApproximateAlgorithm.java:77 | the sort is stable: for every key, the elements with that key keep their input order |
| Sorting.SortedStableUnique | src/main/java/spark/ApproximateAlgorithm.java:100 | two key-ordered lists with the same elements per key, in the same order, are equal, so any stable sort gives the same list |
| Sorting.KeyClassMembers | src/main/java/spark/ApproximateAlgorithm.java:77 | the elements selected for a key come from the list and carry that key |
| Sorting.KeyClassLastIn | src/main/java/spark/ApproximateAlgorithm.java:77 | the last element of a key-ordered list has the largest key and is last among the elements with that key |
| Groups.Singletons | src/main/java/spark/ApproximateAlgorithm.java:151-153 | the initial partition: group i holds only path i, for every path in list order |
| Groups.SingletonsPartition | src/main/java/spark/ApproximateAlgorithm.java:151-153 | the initial groups, one singleton per path in path order, partition the n paths, and there are n of them |
| Groups.SingletonsFlatten | src/main/java/spark/ApproximateAlgorithm.java:151-153 | read in order, the initial groups list the paths 0..n-1 |
| Groups.UniqueOwner | src/main/java/spark/ApproximateAlgorithm.java:120-121 | in a partition, a path lies in exactly one group |
| Groups.GroupsDistinct | src/main/java/spark/ApproximateAlgorithm.java:121 | no two groups of a partition are equal, so finding a group by its contents finds that group |
| Groups.Owner | src/main/java/spark/ApproximateAlgorithm.java:120-121 | every path of the partition has a group |
| Groups.NewHits | src/main/java/spark/ApproximateAlgorithm.java:120-123 | the inner scan for one path: the positions below j of groups that hold the path and were not found before, in list order |
| Groups.Discover | src/main/java/spark/ApproximateAlgorithm.java:116-125 | `groupForMerge` as positions in the partition: the scan for each path through the vertex in turn, appending the groups not yet found |
| Groups.NewHitsSpec | src/main/java/spark/ApproximateAlgorithm.java:120-123 | scanning the groups for one path adds exactly the groups that hold it and are not yet found, in list order |
| Groups.DiscoverSpec | src/main/java/spark/ApproximateAlgorithm.java:116-125 | the touched groups are found without repeats, all exist, and a group is found iff it holds a path through the vertex |
| Groups.Drop | src/main/java/spark/ApproximateAlgorithm.java:142 | the partition with the groups at the given positions removed, the others kept in order |
| Groups.Concat | src/main/java/spark/ApproximateAlgorithm.java:129-141 | the touched groups' paths appended in discovery order; its length is `mergedGroupSize` |
| Groups.MergeGroups | src/main/java/spark/ApproximateAlgorithm.java:137-143 | the first touched group replaced by the concatenation of all touched groups, and the other touched groups removed |
| Groups.DropAll | src/main/java/spark/ApproximateAlgorithm.java:139-143 | removing the joined groups removes exactly the paths of their concatenation |
| Groups.DropLength | src/main/java/spark/ApproximateAlgorithm.java:142 | removing a set of group positions removes that many groups |
| Groups.DropKeeps | src/main/java/spark/ApproximateAlgorithm.java:142 | a group not removed stays in the list |
| Groups.DropSubset | src/main/java/spark/ApproximateAlgorithm.java:142 | removal adds no group |
| Groups.DropSurvivors | src/main/java/spark/ApproximateAlgorithm.java:142 | every group left after removal stands at a position that was not removed |
| Groups.ConcatContains | src/main/java/spark/ApproximateAlgorithm.java:137-141 | the joined group contains every touched group and nothing else |
| Groups.MergeKeepsPaths | src/main/java/spark/ApproximateAlgorithm.java:137-143 | the join neither drops nor duplicates a path |
| Groups.MergeCount | src/main/java/spark/ApproximateAlgorithm.java:137-143 | the join leaves the number of groups reduced by the number of touched groups minus one |
| Groups.MergeShape | src/main/java/spark/ApproximateAlgorithm.java:137-143 | after the join, the joined group is present, every untouched group is unchanged, and every other group present is an untouched one, so the other touched groups are gone |
| Groups.MergeDiscovered | src/main/java/spark/ApproximateAlgorithm.java:116-143 | joining the touched groups keeps a partition, only merges groups, and puts all paths through the vertex in one group |
| Groups.CoherentFindsOne | src/main/java/spark/ApproximateAlgorithm.java:116-128 | when the vertex's paths already share a group, exactly one group is found |
| Groups.OneFoundCoherent | src/main/java/spark/ApproximateAlgorithm.java:116-128 | when exactly one group is found, the vertex's paths already share it |
| Groups.CoherentIffOne | src/main/java/spark/ApproximateAlgorithm.java:126-128 | the early `true` answer happens exactly when the vertex's paths already share a group |
| Groups.SinglePathCoherent | src/main/java/spark/ApproximateAlgorithm.java:84-86 | a vertex passed by a single path always has its paths in one group |
| Groups.CoarsensRefl | src/main/java/spark/ApproximateAlgorithm.java:137-143 | a partition only merges groups of itself |
| Groups.CoarsensTrans | src/main/java/spark/ApproximateAlgorithm.java:58-103 | a sequence of merges only merges groups of the starting partition |
| Groups.CoherencePersists | src/main/java/spark/ApproximateAlgorithm.java:58-103 | once a vertex's paths share a group, later merges keep them together |
| Groups.MergeTwoSmallest | src/main/java/spark/ApproximateAlgorithm.java:100-102 | one phase-3 iteration: sort the groups stably by size, append the second to the first, remove the second |
| Groups.MergeTwoSmallestSpec | src/main/java/spark/ApproximateAlgorithm.java:100-102 | a phase-3 step removes exactly one group, and joins two groups no larger than any other, the smaller first |
| Groups.FlattenPermutation | src/main/java/spark/ApproximateAlgorithm.java:100 | reordering the groups keeps the multiset of paths |
| Groups.PartitionPermutation | src/main/java/spark/ApproximateAlgorithm.java:100 | sorting the groups keeps the partition and merges nothing |
| Groups.MergeFirstTwo | src/main/java/spark/ApproximateAlgorithm.java:101-102 | appending the second group to the first and removing the second keeps a partition and only merges groups |
| Groups.MergeTwoSmallestKeeps | src/main/java/spark/ApproximateAlgorithm.java:100-102 | a phase-3 step keeps a partition of the same paths and only merges groups |
| PathIndex.Interior | src/main/java/spark/ApproximateAlgorithm.java:154 | the positions of a path that are registered: all but the last |
| PathIndex.TotalLength | src/main/java/spark/ApproximateAlgorithm.java:165-168 | the summed length of the paths at the given positions |
| PathIndex.Index | src/main/java/spark/ApproximateAlgorithm.java:151-162 | `vertexPath`: every vertex some path passes at a non-final position, mapped to its entry |
| PathIndex.Weights | src/main/java/spark/ApproximateAlgorithm.java:164-170 | `vertexWeight`: every indexed vertex mapped to its weight |
| PathIndex.Through | src/main/java/spark/ApproximateAlgorithm.java:151-162 | a vertex's entry lists only positions of existing paths |
| PathIndex.ThroughCount | src/main/java/spark/ApproximateAlgorithm.java:154-160 | a path appears in a vertex's entry once per non-final position of the path holding that vertex |
| PathIndex.ThroughNonEmpty | src/main/java/spark/ApproximateAlgorithm.java:151-162 | a vertex has paths in its entry iff some path holds it at a non-final position |
| PathIndex.TerminalNotRegistered | src/main/java/spark/ApproximateAlgorithm.java:154 | a path is not registered against its last vertex when that vertex occurs only there |
| PathIndex.ThroughOrdered | src/main/java/spark/ApproximateAlgorithm.java:151-162 | an entry lists paths in path-list order |
| PathIndex.TotalLengthAppend | src/main/java/spark/ApproximateAlgorithm.java:166-168 | the summed length of two lists of paths is the sum of their summed lengths |
| PathIndex.TotalLengthRepeat | src/main/java/spark/ApproximateAlgorithm.java:166-168 | a path listed c times adds c times its length |
| PathIndex.WeightByOccurrence | src/main/java/spark/ApproximateAlgorithm.java:164-170 | a vertex's weight is the length of each path weighted by how often the vertex occurs in that path at a non-final position |
| PathIndex.TotalLengthPrefix | src/main/java/spark/ApproximateAlgorithm.java:166-168 | summed lengths depend only on the paths listed |
| PathIndex.ThroughSnoc | src/main/java/spark/ApproximateAlgorithm.java:151-162 | registering one more path appends it to each vertex's entry once per non-final occurrence |
| PathIndex.IndexEntries | src/main/java/spark/ApproximateAlgorithm.java:151-170 | the index has exactly the vertices with a nonempty entry, holding that entry, and the weight table has the same keys |
| PathIndex.IndexUnique | src/main/java/spark/ApproximateAlgorithm.java:151-162 | any map with those keys and entries is the index |
| PathIndex.WeightsUnique | src/main/java/spark/ApproximateAlgorithm.java:164-170 | any map with the index's keys that gives each vertex the summed length of its entry is the weight table |
| PathIndex.EntryOf | src/main/java/spark/ApproximateAlgorithm.java:155-160 | a vertex's current entry, or the new empty list the exception handler creates |
| PathIndex.Register | src/main/java/spark/ApproximateAlgorithm.java:154-161 | the index after path p is appended, one position after another, to the entry of the vertex at each of the first i positions |
| PathIndex.IndexPrefix | src/main/java/spark/ApproximateAlgorithm.java:151-162 | the index after the outer loop has registered the first p paths |
| PathIndex.RegisterEntry | src/main/java/spark/ApproximateAlgorithm.java:154-160 | registering a path against its first i positions appends it to a vertex's entry once per occurrence there, whether or not the entry existed |
| PathIndex.RegisterStep | src/main/java/spark/ApproximateAlgorithm.java:155-160 | one registration step appends the path to the entry of that position's vertex only |
| PathIndex.RegisterTight | src/main/java/spark/ApproximateAlgorithm.java:155-160 | registration never creates an empty entry |
| PathIndex.IndexPrefixEntry | src/main/java/spark/ApproximateAlgorithm.java:151-162 | after the first p paths are registered, each entry is the entry those p paths give |
| PathIndex.IndexPrefixTight | src/main/java/spark/ApproximateAlgorithm.java:151-162 | a partially built index has no empty entry |
| PathIndex.IndexPrefixComplete | src/main/java/spark/ApproximateAlgorithm.java:151-162 | the loop over all paths builds exactly the index |
| Phases.Capacity | src/main/java/spark/ApproximateAlgorithm.java:134 | the capacity is the least c with c * k >= n, that is ceil(n / k) |
| Phases.SingletonsBounded | src/main/java/spark/ApproximateAlgorithm.java:134 | no initial group exceeds the capacity |
| Phases.MergeStep | src/main/java/spark/ApproximateAlgorithm.java:108-145 | a refused merge, or one for a vertex whose paths already share a group, leaves the partition unchanged |
| Phases.MergeStepCases | src/main/java/spark/ApproximateAlgorithm.java:116-144 | one group found: unchanged, true; summed size over capacity: unchanged, false; otherwise: the touched groups joined, true |
| Phases.MergeStepDecides | src/main/java/spark/ApproximateAlgorithm.java:126-136 | the answer is true iff the paths already share a group or the joined size is within capacity, and iff the paths share a group afterwards |
| Phases.MergeStepKeeps | src/main/java/spark/ApproximateAlgorithm.java:137-144 | the merge keeps a partition, only merges groups, keeps every group within capacity, and on a real merge removes touched groups minus one |
| Phases.MergeStepShrinks | src/main/java/spark/ApproximateAlgorithm.java:137-144 | a merge never adds a group |
| Phases.Attempt | src/main/java/spark/ApproximateAlgorithm.java:61-66 | one call of `mergeVertex` with its caller's use of the answer: on true the vertex is added to the recorded set and the partition becomes the merge's result; on false the vertex is appended to the reported list and the partition is kept |
| Phases.AttemptKeeps | src/main/java/spark/ApproximateAlgorithm.java:61-66 | an attempt keeps a partition of the same paths and only merges groups |
| Phases.AttemptRecords | src/main/java/spark/ApproximateAlgorithm.java:61-66 | a vertex is recorded iff its merge answered true; otherwise it is reported and the partition is unchanged |
| Phases.AttemptCovers | src/main/java/spark/ApproximateAlgorithm.java:61-66 | after an attempt the vertex is recorded or reported, and nothing recorded or reported is lost |
| Phases.AttemptShrinks | src/main/java/spark/ApproximateAlgorithm.java:61-66 | an attempt never adds a group |
| Phases.AttemptBounded | src/main/java/spark/ApproximateAlgorithm.java:61-66 | an attempt keeps every group within capacity |
| Phases.SoundStep | src/main/java/spark/ApproximateAlgorithm.java:58-93 | a step that only merges groups, and records at most one vertex whose paths then share a group, keeps every recorded vertex's paths together |
| Phases.SoundCoarsened | src/main/java/spark/ApproximateAlgorithm.java:58-103 | merging groups keeps every recorded vertex's paths together |
| Phases.AttemptSound | src/main/java/spark/ApproximateAlgorithm.java:61-66 | after an attempt, every recorded vertex has its paths in one group |
| Phases.StartPhase | src/main/java/spark/ApproximateAlgorithm.java:58-68 | phase 1 keeps a partition, only merges groups, and loses no recorded or reported vertex |
| Phases.StartPhaseSnoc | src/main/java/spark/ApproximateAlgorithm.java:59-67 | phase 1 over one more vertex attempts it when its in-degree is zero and otherwise skips it |
| Phases.StartPhaseSound | src/main/java/spark/ApproximateAlgorithm.java:58-68 | after phase 1, every recorded vertex has its paths in one group |
| Phases.StartPhaseBounded | src/main/java/spark/ApproximateAlgorithm.java:58-68 | phase 1 keeps every group within capacity |
| Phases.StartPhaseShrinks | src/main/java/spark/ApproximateAlgorithm.java:58-68 | phase 1 never adds a group |
| Phases.StartPhaseCovers | src/main/java/spark/ApproximateAlgorithm.java:58-68 | every in-degree-zero vertex is recorded or reported, and phase 1 records no other vertex |
| Phases.WeightPhase | src/main/java/spark/ApproximateAlgorithm.java:83-93 | phase 2 keeps a partition, only merges groups, and loses no recorded or reported vertex |
| Phases.WeightPhaseSnoc | src/main/java/spark/ApproximateAlgorithm.java:83-93 | phase 2 over one more vertex records a single-path vertex without a capacity check and attempts any other |
| Phases.WeightPhaseSound | src/main/java/spark/ApproximateAlgorithm.java:83-93 | after phase 2, every recorded vertex has its paths in one group |
| Phases.WeightPhaseBounded | src/main/java/spark/ApproximateAlgorithm.java:83-93 | phase 2 keeps every group within capacity |
| Phases.WeightPhaseShrinks | src/main/java/spark/ApproximateAlgorithm.java:83-93 | phase 2 never adds a group |
| Phases.WeightStepCovers | src/main/java/spark/ApproximateAlgorithm.java:84-92 | one phase-2 step records or reports its vertex, records it when it has a single path, and loses nothing |
| Phases.WeightPhaseCovers | src/main/java/spark/ApproximateAlgorithm.java:83-93 | every vertex phase 2 visits ends recorded or reported |
| Phases.WeightPhaseSinglePath | src/main/java/spark/ApproximateAlgorithm.java:84-86 | every single-path vertex phase 2 visits ends recorded |
| Phases.WeightPhaseIdle | src/main/java/spark/ApproximateAlgorithm.java:83-93 | phase 2 leaves the partition unchanged when every vertex it visits has a single path or already has its paths in one group |
| Phases.Entries | src/main/java/spark/ApproximateAlgorithm.java:74-75 | the entry list of the weight table, one (vertex, weight) pair per vertex in iteration order |
| Phases.ByWeight | src/main/java/spark/ApproximateAlgorithm.java:74-77 | the weight list is in ascending order of weight |
| Phases.ByWeightCovers | src/main/java/spark/ApproximateAlgorithm.java:74-77 | the weight list holds every listed vertex with its weight, and nothing else |
| Phases.Reduce | src/main/java/spark/ApproximateAlgorithm.java:99-103 | phase 3: repeat the phase-3 iteration while more than k groups remain |
| Phases.ReduceCount | src/main/java/spark/ApproximateAlgorithm.java:99-103 | phase 3 leaves min(groups, k) groups, and returns the groups unchanged when there are at most k, since the loop then does not run |
| Phases.ReduceKeeps | src/main/java/spark/ApproximateAlgorithm.java:99-103 | phase 3 keeps a partition of the same paths and only merges groups |
| Approximate.PhasesOutcome | src/main/java/spark/ApproximateAlgorithm.java:58-93 | after phases 1 and 2, recorded vertices have their paths together, phase-2 vertices are recorded or reported, single-path ones recorded, and groups stay within capacity |
| Approximate.ReduceOutcome | src/main/java/spark/ApproximateAlgorithm.java:99-103 | phase 3 keeps recorded vertices' paths together and leaves min(groups, K) groups |
| Approximate.Run | src/main/java/spark/ApproximateAlgorithm.java:51-106 | `approximateAlgorithm` on a state: phase 1 in the given in-degree order, phase 2 over the weight list sorted by weight, then phase 3 with K |
| Approximate.RunSound | src/main/java/spark/ApproximateAlgorithm.java:51-106 | the run ends in a partition of at most K groups, nonempty when there are paths, with every recorded vertex's paths in one group |
| Approximate.RunCovers | src/main/java/spark/ApproximateAlgorithm.java:51-106 | after the run every weighted vertex is recorded or reported, and every single-path one is recorded |
| Approximate.RunIdle | src/main/java/spark/ApproximateAlgorithm.java:51-106 | when phase 1 leaves at most K groups that already keep every weighted vertex's paths together, the run ends with those groups |
| Approximate.IndexWellIndexed | src/main/java/spark/ApproximateAlgorithm.java:151-162 | every index entry is a nonempty list of existing path positions |
| Approximate.GroupsThrough | src/main/java/spark/ApproximateAlgorithm.java:116-125 | the nested scan finds exactly the touched groups, in discovery order |
| Approximate.Pick | src/main/java/spark/ApproximateAlgorithm.java:164 | the next entry of an iteration over a nonempty key set is one of its keys |
| Approximate.PathsLength | src/main/java/spark/ApproximateAlgorithm.java:165-168 | the loop sums the lengths of the listed paths |
| Approximate.JoinedSize | src/main/java/spark/ApproximateAlgorithm.java:129-132 | the loop sums the sizes of the touched groups, the size of their join |
| Approximate.Join | src/main/java/spark/ApproximateAlgorithm.java:137-143 | the iterator loop appends every later touched group to the first and removes it |
| Approximate.MergeInto | src/main/java/spark/ApproximateAlgorithm.java:116-144 | the whole merge computes the new partition and answer that the merge step gives |
| Approximate.ApproximateAlgorithm.constructor | src/main/java/spark/ApproximateAlgorithm.java:17-23 | a new object has an empty partition, index, weight table and record |
| Approximate.ApproximateAlgorithm.Initialize | src/main/java/spark/ApproximateAlgorithm.java:147-171 | initialization builds the singleton partition, the index and the weight table of the paths |
| Approximate.ApproximateAlgorithm.RegisterPaths | src/main/java/spark/ApproximateAlgorithm.java:151-162 | the registration loops build the singleton partition and exactly the index |
| Approximate.ApproximateAlgorithm.WeighVertices | src/main/java/spark/ApproximateAlgorithm.java:164-170 | the weight table has the index's keys and gives each vertex the summed length of its paths |
| Approximate.ApproximateAlgorithm.MergeVertex | src/main/java/spark/ApproximateAlgorithm.java:108-145 | the in-place merge ends in the partition and answer of the merge step, and keeps the object valid |
| Approximate.ApproximateAlgorithm.AttemptVertex | src/main/java/spark/ApproximateAlgorithm.java:61-66 | a merge attempt records the vertex on true and reports it on false |
| Approximate.ApproximateAlgorithm.StartVertex | src/main/java/spark/ApproximateAlgorithm.java:60-67 | one phase-1 iteration attempts a vertex of in-degree zero and skips any other |
| Approximate.ApproximateAlgorithm.MergeStartVertices | src/main/java/spark/ApproximateAlgorithm.java:58-68 | the phase-1 loop ends in the state phase 1 computes |
| Approximate.ApproximateAlgorithm.MergeByWeight | src/main/java/spark/ApproximateAlgorithm.java:83-93 | the phase-2 loop ends in the state phase 2 computes |
| Approximate.ApproximateAlgorithm.ReduceGroups | src/main/java/spark/ApproximateAlgorithm.java:99-103 | the phase-3 loop ends in the partition phase 3 computes |
| Approximate.ApproximateAlgorithm.ApproximateAlgorithm | src/main/java/spark/ApproximateAlgorithm.java:51-106 | the run ends in the state of the three phases: a partition of at most K groups, every recorded vertex's paths together, every indexed vertex recorded or reported, every single-path vertex recorded |

## Left out

- `main` (src/main/java/spark/ApproximateAlgorithm.java:25-49) is not modelled. It resolves a data file from the command line and the home directory, times the run and prints the result.
- `printResult`, `printVertexPath` and `printVertexWeight` are console output and are not modelled.
- The "size overflow, not merged!" messages are not printed. The model appends the vertex to the ghost list `overflow` instead.
- The `Graph` collaborator (`loadGraph`, `generateEP`, `vertexName`) is not part of this model. The end-to-end paths and the in-degree table are constructor parameters.
- Wall-clock timing (`System.currentTimeMillis`) is not modelled.
- `HashMap` iteration order is not modelled. Phase 1 takes its vertex order as the parameter `degreeOrder`, and phase 2 takes the order before sorting as `weightOrder`. Both must list the keys of their table exactly once. The stable sort then fixes the tie order among equal weights. The weight loop of `initialize` takes its keys in an arbitrary order (`Pick`), which does not change the resulting table.
- A weight is a `Double` in the source and a `nat` here. It is a sum of path lengths, which a `Double` holds exactly for any realistic path count.
- `Math.ceil(n / (double) k)` is modelled as the integer ceiling `Capacity`. The two agree for any path count a `double` represents exactly.
- Paths are known by their position in the path list, not by object. The source finds paths and groups with `ArrayList.contains` and `remove`, which compare by contents. The constructor therefore requires the paths to be pairwise different (`DistinctPaths`). Under that condition, comparing contents and comparing positions agree, and `GroupsDistinct` shows the same holds for groups. Two paths with the same vertices would be told apart by object identity, but not by `contains` and `remove`; the model compares as the source does.
- The partition is a value of type `seq<seq<nat>>`. Aliasing between the `ArrayList` group objects is not modelled. `mergeVertex` removes each later group inside its loop. The model applies all removals together after building the joined group, which gives the same final list because the groups are pairwise different.
- Approximate.ApproximateAlgorithm.Initialize: requires the empty state a new object has, as after the constructor. Calling it twice is not modelled.
- Approximate.ApproximateAlgorithm.ApproximateAlgorithm: requires that every vertex of in-degree zero has an index entry. In the source, a zero-in-degree vertex that no path passes at a non-final position has no entry, and `mergeVertex` then fails on the missing entry at line 119. That failure is not modelled.
- The exception-driven get-or-create at lines 155-160 is modelled as an explicit check for the key, which has the same effect.
