/**
 * The path-partitioning object: it indexes the end-to-end paths of a graph by
 * the vertices they pass, then groups the paths so that the paths through a
 * vertex share a group wherever the group size allows, and finally reduces
 * the partition to `K` groups.
 *
 * The graph is given by its end-to-end paths and its in-degree table. Paths
 * are known by their position in the path list, so a group is a list of path
 * positions.
 */
module Approximate {
  import opened Groups
  import opened PathIndex
  import opened Phases
  import Sorting

  /** The number of groups the partition is reduced to. */
  const K: nat := 2

  /**
   * What the three phases do to a state that satisfies `Sound`: the state
   * stays sound, every listed vertex of phase 2 is recorded or reported, every
   * single-path vertex of phase 2 is recorded, and no group outgrows the
   * capacity if none did before.
   */
  lemma PhasesOutcome(s: Progress, n: nat, cap: nat, index: map<int, seq<nat>>, inDegree: map<int, nat>,
                      degreeOrder: seq<int>, entries: seq<Entry>)
    requires Sound(s, n, index) && WellIndexed(index, n)
    requires StartsIndexed(degreeOrder, inDegree, index) && EntriesIndexed(entries, index)
    ensures var s2 := WeightPhase(StartPhase(s, n, cap, index, inDegree, degreeOrder), n, cap, index, entries);
            && Sound(s2, n, index)
            && (forall i :: 0 <= i < |entries| ==> entries[i].0 in s2.resolved || entries[i].0 in s2.overflow)
            && (forall i :: 0 <= i < |entries| && |index[entries[i].0]| == 1 ==> entries[i].0 in s2.resolved)
            && (Bounded(s.groups, cap) ==> Bounded(s2.groups, cap))
  {
    var s1 := StartPhase(s, n, cap, index, inDegree, degreeOrder);
    StartPhaseSound(s, n, cap, index, inDegree, degreeOrder);
    WeightPhaseSound(s1, n, cap, index, entries);
    WeightPhaseCovers(s1, n, cap, index, entries);
    WeightPhaseSinglePath(s1, n, cap, index, entries);
    if Bounded(s.groups, cap) {
      StartPhaseBounded(s, n, cap, index, inDegree, degreeOrder);
      WeightPhaseBounded(s1, n, cap, index, entries);
    }
  }

  /** Phase 3 keeps a sound state sound and leaves at most `K` groups. */
  lemma ReduceOutcome(s: Progress, n: nat, index: map<int, seq<nat>>)
    requires Sound(s, n, index)
    ensures Sound(s.(groups := Reduce(s.groups, K)), n, index)
    ensures |Reduce(s.groups, K)| == if |s.groups| <= K then |s.groups| else K
  {
    ReduceKeeps(s.groups, n, K);
    ReduceCount(s.groups, K);
    SoundCoarsened(s, Reduce(s.groups, K), n, index);
  }

  /**
   * The whole of `approximateAlgorithm` on a state: phase 1 over the in-degree
   * table in `degreeOrder`, phase 2 over the vertices of `weightOrder` sorted by
   * weight, then phase 3 on the groups.
   */
  ghost function Run(s: Progress, n: nat, cap: nat, index: map<int, seq<nat>>, inDegree: map<int, nat>,
                     degreeOrder: seq<int>, weightOrder: seq<int>, weights: map<int, nat>): Progress
    requires Partition(s.groups, n) && WellIndexed(index, n)
    requires StartsIndexed(degreeOrder, inDegree, index)
    requires (forall i :: 0 <= i < |weightOrder| ==> weightOrder[i] in weights) && weights.Keys <= index.Keys
  {
    ByWeightCovers(weightOrder, weights);
    var s2 := WeightPhase(StartPhase(s, n, cap, index, inDegree, degreeOrder), n, cap, index,
                          ByWeight(weightOrder, weights));
    s2.(groups := Reduce(s2.groups, K))
  }

  /** A run keeps a sound state sound and leaves at most `K` groups, and at least one when there are paths. */
  lemma RunSound(s: Progress, n: nat, cap: nat, index: map<int, seq<nat>>, inDegree: map<int, nat>,
                 degreeOrder: seq<int>, weightOrder: seq<int>, weights: map<int, nat>)
    requires Sound(s, n, index) && WellIndexed(index, n)
    requires StartsIndexed(degreeOrder, inDegree, index)
    requires (forall i :: 0 <= i < |weightOrder| ==> weightOrder[i] in weights) && weights.Keys <= index.Keys
    ensures Sound(Run(s, n, cap, index, inDegree, degreeOrder, weightOrder, weights), n, index)
    ensures |Run(s, n, cap, index, inDegree, degreeOrder, weightOrder, weights).groups| <= K
    ensures n > 0 ==> |Run(s, n, cap, index, inDegree, degreeOrder, weightOrder, weights).groups| > 0
  {
    ByWeightCovers(weightOrder, weights);
    var entries := ByWeight(weightOrder, weights);
    var s2 := WeightPhase(StartPhase(s, n, cap, index, inDegree, degreeOrder), n, cap, index, entries);
    PhasesOutcome(s, n, cap, index, inDegree, degreeOrder, entries);
    ReduceOutcome(s2, n, index);
    if n > 0 {
      assert Iota(n)[0] == 0;
      assert 0 in multiset(Flatten(s2.groups));
      assert s2.groups != [];
    }
  }

  /**
   * A run records or reports every vertex of the weight order, and records
   * every one of them that a single path passes.
   */
  lemma RunCovers(s: Progress, n: nat, cap: nat, index: map<int, seq<nat>>, inDegree: map<int, nat>,
                  degreeOrder: seq<int>, weightOrder: seq<int>, weights: map<int, nat>)
    requires Sound(s, n, index) && WellIndexed(index, n)
    requires StartsIndexed(degreeOrder, inDegree, index)
    requires (forall i :: 0 <= i < |weightOrder| ==> weightOrder[i] in weights) && weights.Keys <= index.Keys
    ensures forall v :: v in weightOrder ==>
              v in Run(s, n, cap, index, inDegree, degreeOrder, weightOrder, weights).resolved
              || v in Run(s, n, cap, index, inDegree, degreeOrder, weightOrder, weights).overflow
    ensures forall v :: v in weightOrder && |index[v]| == 1 ==>
              v in Run(s, n, cap, index, inDegree, degreeOrder, weightOrder, weights).resolved
  {
    ByWeightCovers(weightOrder, weights);
    var entries := ByWeight(weightOrder, weights);
    PhasesOutcome(s, n, cap, index, inDegree, degreeOrder, entries);
    var r := Run(s, n, cap, index, inDegree, degreeOrder, weightOrder, weights);
    forall v | v in weightOrder ensures v in r.resolved || v in r.overflow {
      var j :| 0 <= j < |entries| && entries[j].0 == v;
    }
    forall v | v in weightOrder && |index[v]| == 1 ensures v in r.resolved {
      var j :| 0 <= j < |entries| && entries[j].0 == v;
    }
  }

  /**
   * When phase 1 leaves at most `K` groups and every vertex of the weight
   * table lies on a single path or in one group, the run ends with the
   * groups phase 1 left.
   */
  lemma RunIdle(s: Progress, n: nat, cap: nat, index: map<int, seq<nat>>, inDegree: map<int, nat>,
                degreeOrder: seq<int>, weightOrder: seq<int>, weights: map<int, nat>, after: seq<Group>)
    requires Partition(s.groups, n) && WellIndexed(index, n)
    requires StartsIndexed(degreeOrder, inDegree, index)
    requires (forall i :: 0 <= i < |weightOrder| ==> weightOrder[i] in weights) && weights.Keys <= index.Keys
    requires StartPhase(s, n, cap, index, inDegree, degreeOrder).groups == after && |after| <= K
    requires forall v :: v in weightOrder ==> |index[v]| == 1 || Coherent(after, index[v])
    ensures Run(s, n, cap, index, inDegree, degreeOrder, weightOrder, weights).groups == after
  {
    ByWeightCovers(weightOrder, weights);
    var entries := ByWeight(weightOrder, weights);
    var s1 := StartPhase(s, n, cap, index, inDegree, degreeOrder);
    forall i | 0 <= i < |entries| ensures |index[entries[i].0]| == 1 || Coherent(after, index[entries[i].0]) {
      var v := entries[i].0;
      assert v in weightOrder;
    }
    WeightPhaseIdle(s1, n, cap, index, entries);
  }

  /** Every entry of the vertex index is a nonempty list of path positions. */
  lemma IndexWellIndexed(paths: seq<seq<int>>)
    ensures WellIndexed(Index(paths), |paths|)
  {
    IndexEntries(paths);
  }

  /**
   * The groups of `groups` that hold a path of `ps`, as positions, in the
   * order a scan over `ps` and, for each path, over the groups finds them;
   * no position is listed twice.
   */
  method GroupsThrough(groups: seq<Group>, ps: seq<nat>) returns (touched: seq<nat>)
    ensures touched == Discover(groups, ps)
  {
    touched := [];
    var a := 0;
    while a < |ps|
      invariant 0 <= a <= |ps|
      invariant touched == Discover(groups, ps[..a])
    {
      var p := ps[a];
      ghost var prev := touched;
      var j := 0;
      ScanStart(groups, p, prev);
      while j < |groups|
        invariant 0 <= j <= |groups|
        invariant touched == prev + NewHits(groups, p, prev, j)
      {
        ScanStep(groups, p, prev, j, touched);
        if j !in touched && p in groups[j] {
          touched := touched + [j];
        }
        j := j + 1;
        assert touched == prev + NewHits(groups, p, prev, j);
      }
      SnocPrefix(ps, a);
      a := a + 1;
    }
    assert ps[..a] == ps;
  }

  /** Some element of a nonempty set: the next entry an iteration over the set visits. */
  method Pick(s: set<int>) returns (x: int)
    requires s != {}
    ensures x in s
  {
    assert (forall y :: y !in s) ==> s == {};
    x :| x in s;
  }

  /** The summed length of the paths at indices `ps`: the weight loop of `initialize`. */
  method PathsLength(paths: seq<seq<int>>, ps: seq<nat>) returns (sum: nat)
    requires forall i :: 0 <= i < |ps| ==> ps[i] < |paths|
    ensures sum == TotalLength(paths, ps)
  {
    sum := 0;
    var j := 0;
    while j < |ps|
      invariant 0 <= j <= |ps|
      invariant sum == TotalLength(paths, ps[..j])
    {
      SnocPrefix(ps, j);
      sum := sum + |paths[ps[j]]|;
      j := j + 1;
    }
    assert ps[..j] == ps;
  }

  /** The number of paths in the groups at positions `touched`, counted with repetition. */
  method JoinedSize(groups: seq<Group>, touched: seq<nat>) returns (size: nat)
    requires Within(touched, |groups|)
    ensures size == |Concat(groups, touched)|
  {
    size := 0;
    var t := 0;
    while t < |touched|
      invariant 0 <= t <= |touched|
      invariant size == |Concat(groups, touched[..t])|
    {
      SnocPrefix(touched, t);
      size := size + |groups[touched[t]]|;
      t := t + 1;
    }
    assert touched[..t] == touched;
  }

  /**
   * Appends the groups at positions `touched[1..]` to the group at
   * `touched[0]` and removes them from the partition.
   */
  method Join(groups: seq<Group>, touched: seq<nat>) returns (joined: seq<Group>)
    requires touched != [] && Within(touched, |groups|)
    ensures joined == MergeGroups(groups, touched)
  {
    var firstGroup := groups[touched[0]];
    ConcatFirst(groups, touched);
    var t := 1;
    while t < |touched|
      invariant 1 <= t <= |touched|
      invariant firstGroup == Concat(groups, touched[..t])
    {
      SnocPrefix(touched, t);
      firstGroup := firstGroup + groups[touched[t]];
      t := t + 1;
    }
    assert touched[..t] == touched;
    joined := Drop(groups[touched[0] := firstGroup], Elems(touched[1..]));
  }

  /**
   * The body of `mergeVertex` on the group list `groups`: find the groups
   * holding the paths `ps`; one group means they already share it; groups
   * with more than `cap` paths together are left alone; otherwise they are
   * joined into the first of them.
   */
  method MergeInto(groups: seq<Group>, n: nat, ps: seq<nat>, cap: nat) returns (joined: seq<Group>, merged: bool)
    requires Partition(groups, n) && PathList(ps, n)
    ensures (joined, merged) == MergeStep(groups, n, ps, cap)
  {
    var touched := GroupsThrough(groups, ps);
    MergeStepCases(groups, n, ps, cap);
    if |touched| == 1 {
      return groups, true;
    }
    var size := JoinedSize(groups, touched);
    if size > cap {
      return groups, false;
    }
    joined := Join(groups, touched);
    merged := true;
  }

  /**
   * No two end-to-end paths have the same vertices. The source finds paths
   * and groups with `ArrayList.contains` and `remove`, which compare by
   * contents; under this condition that agrees with comparing positions.
   */
  ghost predicate DistinctPaths(paths: seq<seq<int>>)
  {
    forall i, j :: 0 <= i < j < |paths| ==> paths[i] != paths[j]
  }

  class ApproximateAlgorithm {
    /** The end-to-end paths of the graph, each a list of vertex ids. */
    const paths: seq<seq<int>>
    /** The in-degree of every vertex of the graph. */
    const inDegree: map<int, nat>

    /** The partition of the paths into groups. */
    var result: seq<Group>
    /** For each vertex, the paths passing it. */
    var vertexPath: map<int, seq<nat>>
    /** For each vertex, its weight. */
    var vertexWeight: map<int, nat>
    /** The vertices whose paths have been brought into one group. */
    var vertexSet: set<int>
    /** The vertices reported as too large to merge, in report order. */
    ghost var overflow: seq<int>

    /** The part of the object the merge phases change. */
    ghost function State(): Progress
      reads this
    {
      Progress(result, vertexSet, overflow)
    }

    /**
     * The partition covers the paths, and the vertex index and the weight
     * table are those of the path list.
     */
    ghost predicate Valid()
      reads this
    {
      && Partition(result, |paths|)
      && vertexPath == Index(paths)
      && vertexWeight == Weights(paths)
      && vertexWeight.Keys == vertexPath.Keys
      && WellIndexed(vertexPath, |paths|)
    }

    constructor (paths: seq<seq<int>>, inDegree: map<int, nat>)
      requires DistinctPaths(paths)
      ensures this.paths == paths && this.inDegree == inDegree
      ensures result == [] && vertexPath == map[] && vertexWeight == map[]
      ensures vertexSet == {} && overflow == []
    {
      this.paths := paths;
      this.inDegree := inDegree;
      result := [];
      vertexPath := map[];
      vertexWeight := map[];
      vertexSet := {};
      overflow := [];
    }

    /**
     * Puts every path in a group of its own, registers each path against the
     * vertices at its non-final positions, and weighs every registered vertex
     * by the total length of the paths registered against it.
     */
    method Initialize()
      requires result == [] && vertexPath == map[] && vertexWeight == map[]
      modifies this`result, this`vertexPath, this`vertexWeight
      ensures Valid()
      ensures result == Singletons(|paths|)
    {
      RegisterPaths();
      IndexWellIndexed(paths);
      WeighVertices();
      WeightsUnique(paths, vertexWeight);
      IndexEntries(paths);
      SingletonsPartition(|paths|);
    }

    /** The first half of `Initialize`: the singleton groups and the vertex index. */
    method RegisterPaths()
      requires result == [] && vertexPath == map[]
      modifies this`result, this`vertexPath
      ensures result == Singletons(|paths|)
      ensures vertexPath == Index(paths)
    {
      var p: nat := 0;
      while p < |paths|
        invariant p <= |paths|
        invariant result == Singletons(p)
        invariant vertexPath == IndexPrefix(paths, p)
      {
        assert Singletons(p + 1) == Singletons(p) + [[p]];
        result := result + [[p]];
        var path := paths[p];
        ghost var before := IndexPrefix(paths, p);
        var i := 0;
        while i < |path| - 1
          invariant 0 <= i <= |Interior(path)|
          invariant vertexPath == Register(before, path, p, i)
          modifies this`vertexPath
        {
          var v := path[i];
          ghost var m := vertexPath;
          if v in vertexPath {
            vertexPath := vertexPath[v := vertexPath[v] + [p]];
          } else {
            assert [] + [p] == [p];
            vertexPath := vertexPath[v := [p]];
          }
          assert vertexPath == m[v := EntryOf(m, v) + [p]];
          i := i + 1;
        }
        assert i == |Interior(path)|;
        assert IndexPrefix(paths, p + 1) == Register(before, path, p, i);
        p := p + 1;
      }
      IndexPrefixComplete(paths);
    }

    /** The second half of `Initialize`: the weight of every indexed vertex. */
    method WeighVertices()
      requires WellIndexed(vertexPath, |paths|) && vertexWeight == map[]
      modifies this`vertexWeight
      ensures vertexWeight.Keys == vertexPath.Keys
      ensures forall v :: v in vertexWeight ==> vertexWeight[v] == TotalLength(paths, vertexPath[v])
    {
      var pending := vertexPath.Keys;
      while pending != {}
        invariant pending <= vertexPath.Keys
        invariant vertexWeight.Keys == vertexPath.Keys - pending
        invariant forall v :: v in vertexWeight ==> vertexWeight[v] == TotalLength(paths, vertexPath[v])
        decreases |pending|
      {
        var v := Pick(pending);
        var sum := PathsLength(paths, vertexPath[v]);
        vertexWeight := vertexWeight[v := sum];
        pending := pending - {v};
      }
    }

    /**
     * Tries to bring the paths through `vid` into one group. The vertex counts
     * as merged when they already share a group, or when the groups holding
     * them have at most the capacity of paths together, in which case those
     * groups are joined into the first of them.
     */
    method MergeVertex(vid: int) returns (merged: bool)
      requires Valid() && vid in vertexPath
      modifies this`result
      ensures (result, merged) == MergeStep(old(result), |paths|, vertexPath[vid], Capacity(|paths|, K))
      ensures Valid()
    {
      ghost var gs := result;
      var ps := vertexPath[vid];
      result, merged := MergeInto(result, |paths|, ps, Capacity(|paths|, K));
      assert Partition(result, |paths|) by {
        MergeStepKeeps(gs, |paths|, ps, Capacity(|paths|, K));
      }
    }

    /**
     * One attempt on vertex `v` as both phases make it: `mergeVertex`, then
     * record `v` when it succeeded and report it otherwise.
     */
    method AttemptVertex(v: int)
      requires Valid() && v in vertexPath
      modifies this`result, this`vertexSet, this`overflow
      ensures Valid()
      ensures State() == Attempt(old(State()), |paths|, Capacity(|paths|, K), v, vertexPath[v])
    {
      var ok := MergeVertex(v);
      if ok {
        vertexSet := vertexSet + {v};
      } else {
        overflow := overflow + [v];
      }
    }

    /** One step of phase 1: a vertex of in-degree zero goes through `MergeVertex`, any other is skipped. */
    method StartVertex(v: int)
      requires Valid() && v in inDegree && (inDegree[v] == 0 ==> v in vertexPath)
      modifies this`result, this`vertexSet, this`overflow
      ensures Valid()
      ensures State() == if inDegree[v] == 0 then Attempt(old(State()), |paths|, Capacity(|paths|, K), v, vertexPath[v])
                         else old(State())
    {
      if inDegree[v] == 0 {
        AttemptVertex(v);
      }
    }

    /** Phase 1: every vertex of in-degree zero, in the order `order`, goes through `MergeVertex`. */
    method MergeStartVertices(order: seq<int>)
      requires Valid() && StartsIndexed(order, inDegree, vertexPath)
      modifies this`result, this`vertexSet, this`overflow
      ensures Valid()
      ensures State() == StartPhase(old(State()), |paths|, Capacity(|paths|, K), vertexPath, inDegree, order)
    {
      ghost var s0 := State();
      var i := 0;
      while i < |order|
        invariant 0 <= i <= |order| && Valid()
        invariant StartsIndexed(order[..i], inDegree, vertexPath)
        invariant State() == StartPhase(s0, |paths|, Capacity(|paths|, K), vertexPath, inDegree, order[..i])
      {
        StartPhaseSnoc(s0, |paths|, Capacity(|paths|, K), vertexPath, inDegree, order, i);
        StartVertex(order[i]);
        assert State() == StartPhase(s0, |paths|, Capacity(|paths|, K), vertexPath, inDegree, order[..i + 1]);
        i := i + 1;
      }
      assert order[..i] == order;
    }

    /**
     * Phase 2: in the order of `entries`, a vertex with a single path through
     * it is recorded outright, any other goes through `MergeVertex`.
     */
    method MergeByWeight(entries: seq<Entry>)
      requires Valid() && EntriesIndexed(entries, vertexPath)
      modifies this`result, this`vertexSet, this`overflow
      ensures Valid()
      ensures State() == WeightPhase(old(State()), |paths|, Capacity(|paths|, K), vertexPath, entries)
    {
      ghost var s0 := State();
      var i := 0;
      while i < |entries|
        invariant 0 <= i <= |entries| && Valid()
        invariant EntriesIndexed(entries[..i], vertexPath)
        invariant State() == WeightPhase(s0, |paths|, Capacity(|paths|, K), vertexPath, entries[..i])
      {
        WeightPhaseSnoc(s0, |paths|, Capacity(|paths|, K), vertexPath, entries, i);
        var v := entries[i].0;
        if |vertexPath[v]| == 1 {
          vertexSet := vertexSet + {v};
        } else {
          AttemptVertex(v);
        }
        assert State() == WeightPhase(s0, |paths|, Capacity(|paths|, K), vertexPath, entries[..i + 1]);
        i := i + 1;
      }
      assert entries[..i] == entries;
    }

    /** Phase 3: while more than `K` groups remain, the two smallest are joined. */
    method ReduceGroups()
      requires Valid()
      modifies this`result
      ensures Valid()
      ensures result == Reduce(old(result), K)
    {
      while |result| > K
        invariant Partition(result, |paths|)
        invariant Reduce(result, K) == Reduce(old(result), K)
        decreases |result|
      {
        ghost var before := result;
        MergeTwoSmallestSpec(result);
        MergeTwoSmallestKeeps(result, |paths|);
        result := Sorting.SortBy(result, Size);
        assert |result| == |multiset(result)| == |before|;
        result := [result[0] + result[1]] + result[2..];
        assert result == MergeTwoSmallest(before);
      }
    }

    /**
     * The three phases. `degreeOrder` and `weightOrder` are the iteration
     * orders of the in-degree table and of the weight table.
     */
    method ApproximateAlgorithm(degreeOrder: seq<int>, weightOrder: seq<int>)
      requires Valid() && Sound(State(), |paths|, vertexPath)
      requires EnumeratesKeys(degreeOrder, inDegree) && EnumeratesKeys(weightOrder, vertexWeight)
      requires forall v :: v in inDegree && inDegree[v] == 0 ==> v in vertexPath
      modifies this`result, this`vertexSet, this`overflow
      ensures Valid()
      ensures State() == Run(old(State()), |paths|, Capacity(|paths|, K), vertexPath, inDegree,
                             degreeOrder, weightOrder, vertexWeight)
      ensures Sound(State(), |paths|, vertexPath) && |result| <= K
      ensures forall v :: v in vertexPath ==> v in vertexSet || v in overflow
      ensures forall v :: v in vertexPath && |vertexPath[v]| == 1 ==> v in vertexSet
    {
      ghost var s0 := State();
      ghost var cap := Capacity(|paths|, K);
      MergeStartVertices(degreeOrder);
      var list := ByWeight(weightOrder, vertexWeight);
      ByWeightCovers(weightOrder, vertexWeight);
      MergeByWeight(list);
      ReduceGroups();
      RunSound(s0, |paths|, cap, vertexPath, inDegree, degreeOrder, weightOrder, vertexWeight);
      RunCovers(s0, |paths|, cap, vertexPath, inDegree, degreeOrder, weightOrder, vertexWeight);
    }
  }
}
