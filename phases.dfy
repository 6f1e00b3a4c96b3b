/**
 * The three phases of the approximate partition, as functions on values.
 *
 * A phase walks a list of vertices and, for each, tries to bring all the
 * paths through the vertex into one group. The state it threads through is a
 * `Progress`: the partition, the vertices recorded as merged (the field
 * `vertexSet`), and the vertices reported as "size overflow, not merged", in
 * report order. The class in `Approximate` runs these phases step by step and
 * is proved to end in exactly the state these functions compute.
 */
module Phases {
  import opened Groups
  import Sorting

  /**
   * The capacity bound of `mergeVertex`: the ceiling of n / k, the number of
   * paths one group may reach by merging.
   */
  function Capacity(n: nat, k: nat): (c: nat)
    requires k >= 1
    ensures c * k >= n
    ensures c == 0 || (c - 1) * k < n
  {
    var c := (n + k - 1) / k;
    var m := (n + k - 1) % k;
    assert c * k + m == n + k - 1 && 0 <= m < k;
    assert c * k >= n;
    assert c == 0 || (c - 1) * k < n by {
      if c > 0 {
        assert (c - 1) * k == c * k - k;
      }
    }
    c
  }

  /** No group holds more than `cap` paths. */
  ghost predicate Bounded(gs: seq<Group>, cap: nat)
  {
    forall g :: g in gs ==> |g| <= cap
  }

  /** An entry of the vertex index: a nonempty list of paths among 0..n-1. */
  ghost predicate PathList(ps: seq<nat>, n: nat)
  {
    ps != [] && Within(ps, n)
  }

  /** Every entry of the vertex index is a path list. */
  ghost predicate WellIndexed(index: map<int, seq<nat>>, n: nat)
  {
    forall v :: v in index ==> PathList(index[v], n)
  }

  /** `order` lists every key of `m` exactly once: an iteration order of the map. */
  ghost predicate EnumeratesKeys<V>(order: seq<int>, m: map<int, V>)
  {
    && (forall i, j :: 0 <= i < j < |order| ==> order[i] != order[j])
    && (forall i :: 0 <= i < |order| ==> order[i] in m)
    && (forall v :: v in m ==> v in order)
  }

  lemma WithinMembers(ps: seq<nat>, n: nat)
    requires Within(ps, n)
    ensures forall p :: p in ps ==> p < n
  {
    forall p | p in ps ensures p < n {
      var i :| 0 <= i < |ps| && ps[i] == p;
    }
  }

  lemma SnocPrefix<T>(s: seq<T>, i: nat)
    requires i < |s|
    ensures |s[..i + 1]| == i + 1 && s[..i + 1][..i] == s[..i] && s[..i + 1][i] == s[i]
  {
  }

  // ---------------------------------------------------------------------------
  // One vertex

  /**
   * `mergeVertex` on values: the partition after trying to bring the paths
   * `ps` of a vertex into one group under the capacity `cap`, and whether the
   * vertex counts as merged.
   */
  function MergeStep(gs: seq<Group>, n: nat, ps: seq<nat>, cap: nat): (r: (seq<Group>, bool))
    requires Partition(gs, n) && PathList(ps, n)
    ensures !r.1 || Coherent(gs, ps) ==> r.0 == gs
  {
    var ts := Discover(gs, ps);
    WithinMembers(ps, n);
    MergeDiscovered(gs, n, ps);
    CoherentIffOne(gs, n, ps);
    if |ts| == 1 then (gs, true)
    else if |Concat(gs, ts)| > cap then (gs, false)
    else (MergeGroups(gs, ts), true)
  }

  /** The three outcomes of the step, by the groups found and their total size. */
  lemma MergeStepCases(gs: seq<Group>, n: nat, ps: seq<nat>, cap: nat)
    requires Partition(gs, n) && PathList(ps, n)
    ensures Within(Discover(gs, ps), |gs|)
    ensures |Discover(gs, ps)| == 1 ==> MergeStep(gs, n, ps, cap) == (gs, true)
    ensures |Discover(gs, ps)| != 1 && |Concat(gs, Discover(gs, ps))| > cap ==> MergeStep(gs, n, ps, cap) == (gs, false)
    ensures |Discover(gs, ps)| != 1 && |Concat(gs, Discover(gs, ps))| <= cap ==>
              Discover(gs, ps) != [] && MergeStep(gs, n, ps, cap) == (MergeGroups(gs, Discover(gs, ps)), true)
  {
    WithinMembers(ps, n);
    MergeDiscovered(gs, n, ps);
  }

  /**
   * A vertex counts as merged exactly when its paths already shared a group
   * or the groups holding them have at most `cap` paths together; afterwards
   * its paths share a group exactly when it counts as merged.
   */
  lemma MergeStepDecides(gs: seq<Group>, n: nat, ps: seq<nat>, cap: nat)
    requires Partition(gs, n) && PathList(ps, n)
    ensures Within(Discover(gs, ps), |gs|)
    ensures var r := MergeStep(gs, n, ps, cap);
            r.1 <==> Coherent(gs, ps) || |Concat(gs, Discover(gs, ps))| <= cap
    ensures Coherent(MergeStep(gs, n, ps, cap).0, ps) <==> MergeStep(gs, n, ps, cap).1
  {
    WithinMembers(ps, n);
    CoherentIffOne(gs, n, ps);
    MergeDiscovered(gs, n, ps);
  }

  /**
   * The step keeps the partition, only merges groups, never builds a group
   * above `cap`, and a real merge of the groups found removes all but one.
   */
  lemma MergeStepKeeps(gs: seq<Group>, n: nat, ps: seq<nat>, cap: nat)
    requires Partition(gs, n) && PathList(ps, n)
    ensures var r := MergeStep(gs, n, ps, cap);
            Partition(r.0, n) && Coarsens(r.0, gs)
    ensures var r := MergeStep(gs, n, ps, cap);
            Bounded(gs, cap) ==> Bounded(r.0, cap)
    ensures var r := MergeStep(gs, n, ps, cap);
            r.1 && !Coherent(gs, ps) ==>
              |Discover(gs, ps)| >= 2 && |r.0| == |gs| - |Discover(gs, ps)| + 1
  {
    var ts := Discover(gs, ps);
    DiscoverSpec(gs, ps);
    WithinMembers(ps, n);
    CoherentIffOne(gs, n, ps);
    MergeDiscovered(gs, n, ps);
    CoarsensRefl(gs);
    if |ts| != 1 && |Concat(gs, ts)| <= cap {
      MergeCount(gs, ts);
      MergeShape(gs, ts);
    }
  }

  /** The step never adds a group. */
  lemma MergeStepShrinks(gs: seq<Group>, n: nat, ps: seq<nat>, cap: nat)
    requires Partition(gs, n) && PathList(ps, n)
    ensures |MergeStep(gs, n, ps, cap).0| <= |gs|
  {
    MergeStepCases(gs, n, ps, cap);
    var ts := Discover(gs, ps);
    if |ts| != 1 && |Concat(gs, ts)| <= cap {
      DiscoverSpec(gs, ps);
      MergeCount(gs, ts);
    }
  }

  /** The state a phase threads from vertex to vertex. */
  datatype Progress = Progress(groups: seq<Group>, resolved: set<int>, overflow: seq<int>)

  /**
   * One call of `mergeVertex` for vertex `v` together with what the caller
   * does with its answer: record `v` as merged, or report it.
   */
  function Attempt(s: Progress, n: nat, cap: nat, v: int, ps: seq<nat>): Progress
    requires Partition(s.groups, n) && PathList(ps, n)
  {
    var m := MergeStep(s.groups, n, ps, cap);
    if m.1 then Progress(m.0, s.resolved + {v}, s.overflow)
    else Progress(s.groups, s.resolved, s.overflow + [v])
  }

  /** An attempt keeps a partition of the same paths and only merges groups. */
  lemma AttemptKeeps(s: Progress, n: nat, cap: nat, v: int, ps: seq<nat>)
    requires Partition(s.groups, n) && PathList(ps, n)
    ensures Partition(Attempt(s, n, cap, v, ps).groups, n)
    ensures Coarsens(Attempt(s, n, cap, v, ps).groups, s.groups)
  {
    assert Attempt(s, n, cap, v, ps).groups == MergeStep(s.groups, n, ps, cap).0;
    MergeStepKeeps(s.groups, n, ps, cap);
  }

  /**
   * The caller records the vertex exactly when its paths now share a group,
   * and otherwise reports it and keeps the partition as it was.
   */
  lemma AttemptRecords(s: Progress, n: nat, cap: nat, v: int, ps: seq<nat>)
    requires Partition(s.groups, n) && PathList(ps, n)
    ensures var r := Attempt(s, n, cap, v, ps);
            Coherent(r.groups, ps) ==> r.resolved == s.resolved + {v} && r.overflow == s.overflow
    ensures var r := Attempt(s, n, cap, v, ps);
            !Coherent(r.groups, ps) ==>
              r.groups == s.groups && r.resolved == s.resolved && r.overflow == s.overflow + [v]
  {
    MergeStepDecides(s.groups, n, ps, cap);
  }

  /** The vertex tried is recorded or reported, and nothing recorded or reported before is lost. */
  lemma AttemptCovers(s: Progress, n: nat, cap: nat, v: int, ps: seq<nat>)
    requires Partition(s.groups, n) && PathList(ps, n)
    ensures var r := Attempt(s, n, cap, v, ps);
            (v in r.resolved || v in r.overflow) && s.resolved <= r.resolved && s.overflow <= r.overflow
  {
  }

  /** An attempt never adds a group. */
  lemma AttemptShrinks(s: Progress, n: nat, cap: nat, v: int, ps: seq<nat>)
    requires Partition(s.groups, n) && PathList(ps, n)
    ensures |Attempt(s, n, cap, v, ps).groups| <= |s.groups|
  {
    MergeStepShrinks(s.groups, n, ps, cap);
  }

  lemma AttemptBounded(s: Progress, n: nat, cap: nat, v: int, ps: seq<nat>)
    requires Partition(s.groups, n) && PathList(ps, n) && Bounded(s.groups, cap)
    ensures Bounded(Attempt(s, n, cap, v, ps).groups, cap)
  {
    MergeStepKeeps(s.groups, n, ps, cap);
  }

  /**
   * The partition is intact and every vertex recorded as merged has all the
   * paths through it in one group.
   */
  ghost predicate Sound(s: Progress, n: nat, index: map<int, seq<nat>>)
  {
    && Partition(s.groups, n)
    && forall v :: v in s.resolved ==> v in index && Coherent(s.groups, index[v])
  }

  /**
   * A step that only merges groups and records at most the vertex `v`, and
   * records `v` only when its paths share a group, keeps the state sound.
   */
  lemma SoundStep(s: Progress, r: Progress, n: nat, index: map<int, seq<nat>>, v: int)
    requires Sound(s, n, index) && Partition(r.groups, n) && Coarsens(r.groups, s.groups)
    requires r.resolved <= s.resolved + {v}
    requires v in r.resolved ==> v in index && Coherent(r.groups, index[v])
    ensures Sound(r, n, index)
  {
    SoundCoarsened(s, r.groups, n, index);
  }

  /** Merging groups never undoes a recorded merge. */
  lemma SoundCoarsened(s: Progress, gs: seq<Group>, n: nat, index: map<int, seq<nat>>)
    requires Sound(s, n, index) && Partition(gs, n) && Coarsens(gs, s.groups)
    ensures Sound(s.(groups := gs), n, index)
  {
    forall v | v in s.resolved ensures Coherent(gs, index[v]) {
      CoherencePersists(s.groups, gs, index[v]);
    }
  }

  lemma AttemptSound(s: Progress, n: nat, cap: nat, index: map<int, seq<nat>>, v: int)
    requires Sound(s, n, index) && WellIndexed(index, n) && v in index
    ensures Sound(Attempt(s, n, cap, v, index[v]), n, index)
  {
    var r := Attempt(s, n, cap, v, index[v]);
    AttemptRecords(s, n, cap, v, index[v]);
    AttemptKeeps(s, n, cap, v, index[v]);
    SoundStep(s, r, n, index, v);
  }

  lemma OverflowGrows(a: seq<int>, b: seq<int>, x: int)
    requires a <= b && x in a
    ensures x in b
  {
    var i :| 0 <= i < |a| && a[i] == x;
    assert b[i] == x;
  }

  // ---------------------------------------------------------------------------
  // Phase 1: the start vertices

  /** Every listed vertex has an in-degree, and every listed start vertex has an index entry. */
  ghost predicate StartsIndexed(order: seq<int>, inDegree: map<int, nat>, index: map<int, seq<nat>>)
  {
    forall i :: 0 <= i < |order| ==> order[i] in inDegree && (inDegree[order[i]] == 0 ==> order[i] in index)
  }

  /**
   * Phase 1: in the order `order` of the in-degree table, every vertex of
   * in-degree zero goes through `mergeVertex`.
   */
  function StartPhase(s: Progress, n: nat, cap: nat, index: map<int, seq<nat>>,
                      inDegree: map<int, nat>, order: seq<int>): (r: Progress)
    requires Partition(s.groups, n) && WellIndexed(index, n)
    requires StartsIndexed(order, inDegree, index)
    ensures Partition(r.groups, n) && Coarsens(r.groups, s.groups)
    ensures s.resolved <= r.resolved && s.overflow <= r.overflow
    decreases |order|
  {
    if order == [] then
      CoarsensRefl(s.groups);
      s
    else
      var q := StartPhase(s, n, cap, index, inDegree, order[..|order| - 1]);
      var v := order[|order| - 1];
      if inDegree[v] == 0 then
        var r := Attempt(q, n, cap, v, index[v]);
        AttemptKeeps(q, n, cap, v, index[v]);
        CoarsensTrans(r.groups, q.groups, s.groups);
        r
      else
        q
  }

  /** Phase 1 over one more vertex of the order is one more step. */
  lemma StartPhaseSnoc(s: Progress, n: nat, cap: nat, index: map<int, seq<nat>>,
                       inDegree: map<int, nat>, order: seq<int>, i: nat)
    requires Partition(s.groups, n) && WellIndexed(index, n)
    requires StartsIndexed(order, inDegree, index) && i < |order|
    ensures StartsIndexed(order[..i], inDegree, index) && StartsIndexed(order[..i + 1], inDegree, index)
    ensures var q := StartPhase(s, n, cap, index, inDegree, order[..i]);
            StartPhase(s, n, cap, index, inDegree, order[..i + 1])
              == if inDegree[order[i]] == 0 then Attempt(q, n, cap, order[i], index[order[i]]) else q
  {
    SnocPrefix(order, i);
  }

  /** Phase 1 keeps every recorded vertex's paths in one group and records only merged vertices. */
  lemma {:induction false} StartPhaseSound(s: Progress, n: nat, cap: nat, index: map<int, seq<nat>>,
                                           inDegree: map<int, nat>, order: seq<int>)
    requires Sound(s, n, index) && WellIndexed(index, n)
    requires StartsIndexed(order, inDegree, index)
    ensures Sound(StartPhase(s, n, cap, index, inDegree, order), n, index)
    decreases |order|
  {
    if order != [] {
      var order' := order[..|order| - 1];
      StartPhaseSound(s, n, cap, index, inDegree, order');
      var v := order[|order| - 1];
      if inDegree[v] == 0 {
        AttemptSound(StartPhase(s, n, cap, index, inDegree, order'), n, cap, index, v);
      }
    }
  }

  /** Phase 1 never builds a group above the capacity. */
  lemma {:induction false} StartPhaseBounded(s: Progress, n: nat, cap: nat, index: map<int, seq<nat>>,
                                             inDegree: map<int, nat>, order: seq<int>)
    requires Partition(s.groups, n) && WellIndexed(index, n)
    requires StartsIndexed(order, inDegree, index)
    requires Bounded(s.groups, cap)
    ensures Bounded(StartPhase(s, n, cap, index, inDegree, order).groups, cap)
    decreases |order|
  {
    if order != [] {
      var order' := order[..|order| - 1];
      StartPhaseBounded(s, n, cap, index, inDegree, order');
      var v := order[|order| - 1];
      if inDegree[v] == 0 {
        AttemptBounded(StartPhase(s, n, cap, index, inDegree, order'), n, cap, v, index[v]);
      }
    }
  }

  /** Phase 1 never adds a group. */
  lemma {:induction false} StartPhaseShrinks(s: Progress, n: nat, cap: nat, index: map<int, seq<nat>>,
                                             inDegree: map<int, nat>, order: seq<int>)
    requires Partition(s.groups, n) && WellIndexed(index, n)
    requires StartsIndexed(order, inDegree, index)
    ensures |StartPhase(s, n, cap, index, inDegree, order).groups| <= |s.groups|
    decreases |order|
  {
    if order != [] {
      var order' := order[..|order| - 1];
      StartPhaseShrinks(s, n, cap, index, inDegree, order');
      var v := order[|order| - 1];
      if inDegree[v] == 0 {
        AttemptShrinks(StartPhase(s, n, cap, index, inDegree, order'), n, cap, v, index[v]);
      }
    }
  }

  /**
   * After phase 1 every listed start vertex is recorded as merged or was
   * reported, and the only vertices newly recorded are listed start vertices.
   */
  lemma {:induction false} StartPhaseCovers(s: Progress, n: nat, cap: nat, index: map<int, seq<nat>>,
                                            inDegree: map<int, nat>, order: seq<int>)
    requires Partition(s.groups, n) && WellIndexed(index, n)
    requires StartsIndexed(order, inDegree, index)
    ensures var r := StartPhase(s, n, cap, index, inDegree, order);
            forall i :: 0 <= i < |order| && inDegree[order[i]] == 0 ==>
              order[i] in r.resolved || order[i] in r.overflow
    ensures var r := StartPhase(s, n, cap, index, inDegree, order);
            forall v :: v in r.resolved ==> v in s.resolved || (v in order && inDegree[v] == 0)
    decreases |order|
  {
    if order != [] {
      var order', v := order[..|order| - 1], order[|order| - 1];
      StartPhaseCovers(s, n, cap, index, inDegree, order');
      var q := StartPhase(s, n, cap, index, inDegree, order');
      var r := StartPhase(s, n, cap, index, inDegree, order);
      forall i | 0 <= i < |order| && inDegree[order[i]] == 0
        ensures order[i] in r.resolved || order[i] in r.overflow
      {
        if i < |order'| {
          assert order'[i] == order[i];
          if order[i] in q.overflow {
            OverflowGrows(q.overflow, r.overflow, order[i]);
          }
        }
      }
      forall w | w in r.resolved ensures w in s.resolved || (w in order && inDegree[w] == 0) {
        if w in q.resolved && w !in s.resolved {
          assert w in order';
        }
      }
    }
  }

  // ---------------------------------------------------------------------------
  // Phase 2: every indexed vertex, by ascending weight

  /** A (vertex, weight) entry of the weight table. */
  type Entry = (int, nat)

  /** The sort key of phase 2: the weight. */
  function WeightOf(e: Entry): int
  {
    e.1
  }

  /** The entries of `weights` in the order `order`: the list copied from the weight table. */
  function Entries(order: seq<int>, weights: map<int, nat>): seq<Entry>
    requires forall i :: 0 <= i < |order| ==> order[i] in weights
  {
    seq(|order|, i requires 0 <= i < |order| => (order[i], weights[order[i]]))
  }

  /** Every listed vertex has an index entry. */
  ghost predicate EntriesIndexed(entries: seq<Entry>, index: map<int, seq<nat>>)
  {
    forall i :: 0 <= i < |entries| ==> entries[i].0 in index
  }

  /**
   * Phase 2: in the order of `entries`, a vertex with one path through it is
   * recorded as merged outright; any other goes through `mergeVertex`.
   */
  function WeightPhase(s: Progress, n: nat, cap: nat, index: map<int, seq<nat>>,
                       entries: seq<Entry>): (r: Progress)
    requires Partition(s.groups, n) && WellIndexed(index, n)
    requires EntriesIndexed(entries, index)
    ensures Partition(r.groups, n) && Coarsens(r.groups, s.groups)
    ensures s.resolved <= r.resolved && s.overflow <= r.overflow
    decreases |entries|
  {
    if entries == [] then
      CoarsensRefl(s.groups);
      s
    else
      var q := WeightPhase(s, n, cap, index, entries[..|entries| - 1]);
      var v := entries[|entries| - 1].0;
      if |index[v]| == 1 then
        Progress(q.groups, q.resolved + {v}, q.overflow)
      else
        var r := Attempt(q, n, cap, v, index[v]);
        AttemptKeeps(q, n, cap, v, index[v]);
        CoarsensTrans(r.groups, q.groups, s.groups);
        r
  }

  /** Phase 2 over one more entry is one more step. */
  lemma WeightPhaseSnoc(s: Progress, n: nat, cap: nat, index: map<int, seq<nat>>,
                        entries: seq<Entry>, i: nat)
    requires Partition(s.groups, n) && WellIndexed(index, n)
    requires EntriesIndexed(entries, index) && i < |entries|
    ensures EntriesIndexed(entries[..i], index) && EntriesIndexed(entries[..i + 1], index)
    ensures var q := WeightPhase(s, n, cap, index, entries[..i]);
            var v := entries[i].0;
            WeightPhase(s, n, cap, index, entries[..i + 1])
              == if |index[v]| == 1 then Progress(q.groups, q.resolved + {v}, q.overflow)
                 else Attempt(q, n, cap, v, index[v])
  {
    SnocPrefix(entries, i);
  }

  /** Phase 2 keeps every recorded vertex's paths in one group. */
  lemma {:induction false} WeightPhaseSound(s: Progress, n: nat, cap: nat, index: map<int, seq<nat>>,
                                            entries: seq<Entry>)
    requires Sound(s, n, index) && WellIndexed(index, n)
    requires EntriesIndexed(entries, index)
    ensures Sound(WeightPhase(s, n, cap, index, entries), n, index)
    decreases |entries|
  {
    if entries != [] {
      var entries' := entries[..|entries| - 1];
      WeightPhaseSound(s, n, cap, index, entries');
      var q := WeightPhase(s, n, cap, index, entries');
      var v := entries[|entries| - 1].0;
      if |index[v]| == 1 {
        var p := index[v][0];
        assert index[v] == [p];
        WithinMembers(index[v], n);
        SinglePathCoherent(q.groups, n, p);
      } else {
        AttemptSound(q, n, cap, index, v);
      }
    }
  }

  /** Phase 2 never builds a group above the capacity. */
  lemma {:induction false} WeightPhaseBounded(s: Progress, n: nat, cap: nat, index: map<int, seq<nat>>,
                                              entries: seq<Entry>)
    requires Partition(s.groups, n) && WellIndexed(index, n)
    requires EntriesIndexed(entries, index)
    requires Bounded(s.groups, cap)
    ensures Bounded(WeightPhase(s, n, cap, index, entries).groups, cap)
    decreases |entries|
  {
    if entries != [] {
      var entries' := entries[..|entries| - 1];
      WeightPhaseBounded(s, n, cap, index, entries');
      var v := entries[|entries| - 1].0;
      if |index[v]| != 1 {
        AttemptBounded(WeightPhase(s, n, cap, index, entries'), n, cap, v, index[v]);
      }
    }
  }

  /** Phase 2 never adds a group. */
  lemma {:induction false} WeightPhaseShrinks(s: Progress, n: nat, cap: nat, index: map<int, seq<nat>>,
                                              entries: seq<Entry>)
    requires Partition(s.groups, n) && WellIndexed(index, n)
    requires EntriesIndexed(entries, index)
    ensures |WeightPhase(s, n, cap, index, entries).groups| <= |s.groups|
    decreases |entries|
  {
    if entries != [] {
      var entries' := entries[..|entries| - 1];
      WeightPhaseShrinks(s, n, cap, index, entries');
      var v := entries[|entries| - 1].0;
      if |index[v]| != 1 {
        AttemptShrinks(WeightPhase(s, n, cap, index, entries'), n, cap, v, index[v]);
      }
    }
  }

  /** One step of phase 2 records or reports its vertex and loses nothing recorded or reported before. */
  lemma WeightStepCovers(s: Progress, n: nat, cap: nat, index: map<int, seq<nat>>, entries: seq<Entry>)
    requires Partition(s.groups, n) && WellIndexed(index, n)
    requires EntriesIndexed(entries, index) && entries != []
    ensures var q := WeightPhase(s, n, cap, index, entries[..|entries| - 1]);
            var r := WeightPhase(s, n, cap, index, entries);
            var v := entries[|entries| - 1].0;
            && (v in r.resolved || v in r.overflow)
            && (|index[v]| == 1 ==> v in r.resolved)
            && q.resolved <= r.resolved && q.overflow <= r.overflow
  {
    var v := entries[|entries| - 1].0;
    var q := WeightPhase(s, n, cap, index, entries[..|entries| - 1]);
    if |index[v]| != 1 {
      AttemptCovers(q, n, cap, v, index[v]);
    }
  }

  /**
   * A list whose entries but the last are covered by the earlier records is
   * covered by later records that keep them and cover the last entry.
   */
  lemma ExtendCover(entries: seq<Entry>, qr: set<int>, qo: seq<int>, rr: set<int>, ro: seq<int>)
    requires entries != []
    requires var prefix := entries[..|entries| - 1];
             forall i :: 0 <= i < |prefix| ==> prefix[i].0 in qr || prefix[i].0 in qo
    requires qr <= rr && qo <= ro
    requires entries[|entries| - 1].0 in rr || entries[|entries| - 1].0 in ro
    ensures forall i :: 0 <= i < |entries| ==> entries[i].0 in rr || entries[i].0 in ro
  {
    var prefix := entries[..|entries| - 1];
    forall i | 0 <= i < |entries| ensures entries[i].0 in rr || entries[i].0 in ro {
      if i < |prefix| {
        var w := prefix[i].0;
        assert w == entries[i].0;
        if w in qo {
          OverflowGrows(qo, ro, w);
        }
      }
    }
  }

  /** After phase 2 every listed vertex is recorded as merged or was reported. */
  lemma {:induction false} WeightPhaseCovers(s: Progress, n: nat, cap: nat, index: map<int, seq<nat>>,
                                             entries: seq<Entry>)
    requires Partition(s.groups, n) && WellIndexed(index, n)
    requires EntriesIndexed(entries, index)
    ensures var r := WeightPhase(s, n, cap, index, entries);
            forall i :: 0 <= i < |entries| ==> entries[i].0 in r.resolved || entries[i].0 in r.overflow
    decreases |entries|
  {
    if entries != [] {
      var entries' := entries[..|entries| - 1];
      WeightPhaseCovers(s, n, cap, index, entries');
      WeightStepCovers(s, n, cap, index, entries);
      var q := WeightPhase(s, n, cap, index, entries');
      var r := WeightPhase(s, n, cap, index, entries);
      ExtendCover(entries, q.resolved, q.overflow, r.resolved, r.overflow);
    }
  }

  /**
   * Phase 2 leaves the groups alone when every vertex it visits lies on a
   * single path or already has its paths in one group.
   */
  lemma {:induction false} WeightPhaseIdle(s: Progress, n: nat, cap: nat, index: map<int, seq<nat>>,
                                           entries: seq<Entry>)
    requires Partition(s.groups, n) && WellIndexed(index, n)
    requires EntriesIndexed(entries, index)
    requires forall i :: 0 <= i < |entries| ==> |index[entries[i].0]| == 1 || Coherent(s.groups, index[entries[i].0])
    ensures WeightPhase(s, n, cap, index, entries).groups == s.groups
    decreases |entries|
  {
    if entries != [] {
      var entries' := entries[..|entries| - 1];
      assert forall i :: 0 <= i < |entries'| ==> entries'[i] == entries[i];
      WeightPhaseIdle(s, n, cap, index, entries');
      var q := WeightPhase(s, n, cap, index, entries');
      var v := entries[|entries| - 1].0;
      if |index[v]| != 1 {
        MergeStepDecides(q.groups, n, index[v], cap);
      }
    }
  }

  /**
   * A list whose single-path entries but the last are among the earlier
   * records keeps them all among later records that keep them and hold the
   * last entry if it is single-path.
   */
  lemma ExtendSingle(entries: seq<Entry>, index: map<int, seq<nat>>, qr: set<int>, rr: set<int>)
    requires entries != [] && EntriesIndexed(entries, index)
    requires var prefix := entries[..|entries| - 1];
             forall i :: 0 <= i < |prefix| && |index[prefix[i].0]| == 1 ==> prefix[i].0 in qr
    requires qr <= rr
    requires |index[entries[|entries| - 1].0]| == 1 ==> entries[|entries| - 1].0 in rr
    ensures forall i :: 0 <= i < |entries| && |index[entries[i].0]| == 1 ==> entries[i].0 in rr
  {
    var prefix := entries[..|entries| - 1];
    forall i | 0 <= i < |entries| && |index[entries[i].0]| == 1 ensures entries[i].0 in rr {
      if i < |prefix| {
        assert prefix[i] == entries[i];
      }
    }
  }

  /** After phase 2 every listed vertex with a single path through it is recorded as merged. */
  lemma {:induction false} WeightPhaseSinglePath(s: Progress, n: nat, cap: nat, index: map<int, seq<nat>>,
                                                 entries: seq<Entry>)
    requires Partition(s.groups, n) && WellIndexed(index, n)
    requires EntriesIndexed(entries, index)
    ensures var r := WeightPhase(s, n, cap, index, entries);
            forall i :: 0 <= i < |entries| && |index[entries[i].0]| == 1 ==> entries[i].0 in r.resolved
    decreases |entries|
  {
    if entries != [] {
      var entries' := entries[..|entries| - 1];
      WeightPhaseSinglePath(s, n, cap, index, entries');
      WeightStepCovers(s, n, cap, index, entries);
      var q := WeightPhase(s, n, cap, index, entries');
      var r := WeightPhase(s, n, cap, index, entries);
      ExtendSingle(entries, index, q.resolved, r.resolved);
    }
  }

  /** The list phase 2 walks: the weight table in iteration order, stably sorted by weight. */
  function ByWeight(order: seq<int>, weights: map<int, nat>): (sorted: seq<Entry>)
    requires forall i :: 0 <= i < |order| ==> order[i] in weights
    ensures Sorting.SortedBy(sorted, WeightOf)
  {
    Sorting.SortBy(Entries(order, weights), WeightOf)
  }

  /**
   * The sorted list holds every vertex of the iteration order, with its
   * weight, and no other entry.
   */
  lemma ByWeightCovers(order: seq<int>, weights: map<int, nat>)
    requires forall i :: 0 <= i < |order| ==> order[i] in weights
    ensures forall v :: v in order ==> exists j :: 0 <= j < |ByWeight(order, weights)| && ByWeight(order, weights)[j].0 == v
    ensures forall j :: 0 <= j < |ByWeight(order, weights)| ==>
              && ByWeight(order, weights)[j].0 in order
              && ByWeight(order, weights)[j].0 in weights
              && ByWeight(order, weights)[j].1 == weights[ByWeight(order, weights)[j].0]
  {
    var list := Entries(order, weights);
    var sorted := ByWeight(order, weights);
    assert multiset(sorted) == multiset(list);
    forall v | v in order ensures exists j :: 0 <= j < |sorted| && sorted[j].0 == v {
      var i :| 0 <= i < |order| && order[i] == v;
      assert list[i] in multiset(list);
      assert list[i] in sorted;
      var j :| 0 <= j < |sorted| && sorted[j] == list[i];
      assert sorted[j].0 == v;
    }
    forall j | 0 <= j < |sorted|
      ensures sorted[j].0 in order && sorted[j].0 in weights && sorted[j].1 == weights[sorted[j].0]
    {
      assert sorted[j] in multiset(sorted);
      assert sorted[j] in list;
      var i :| 0 <= i < |list| && list[i] == sorted[j];
      assert order[i] in order;
    }
  }

  // ---------------------------------------------------------------------------
  // Phase 3: reduction to k groups

  /** Phase 3: while more than `k` groups remain, merge the two smallest. */
  function Reduce(gs: seq<Group>, k: nat): seq<Group>
    requires k >= 1
    decreases |gs|
  {
    if |gs| <= k then gs
    else
      MergeTwoSmallestSpec(gs);
      Reduce(MergeTwoSmallest(gs), k)
  }

  /** Phase 3 leaves min(|gs|, k) groups, and leaves the groups as they are when there are at most k. */
  lemma {:induction false} ReduceCount(gs: seq<Group>, k: nat)
    requires k >= 1
    ensures |Reduce(gs, k)| == if |gs| <= k then |gs| else k
    ensures |gs| <= k ==> Reduce(gs, k) == gs
    decreases |gs|
  {
    if |gs| > k {
      MergeTwoSmallestSpec(gs);
      ReduceCount(MergeTwoSmallest(gs), k);
    }
  }

  /** Phase 3 keeps the partition and only merges groups. */
  lemma {:induction false} ReduceKeeps(gs: seq<Group>, n: nat, k: nat)
    requires k >= 1 && Partition(gs, n)
    ensures Partition(Reduce(gs, k), n) && Coarsens(Reduce(gs, k), gs)
    decreases |gs|
  {
    if |gs| <= k {
      CoarsensRefl(gs);
    } else {
      var gs' := MergeTwoSmallest(gs);
      MergeTwoSmallestSpec(gs);
      MergeTwoSmallestKeeps(gs, n);
      ReduceKeeps(gs', n, k);
      CoarsensTrans(Reduce(gs', k), gs', gs);
    }
  }

  /** The partition `initialize` builds respects the capacity whenever there is a path. */
  lemma SingletonsBounded(n: nat, k: nat)
    requires k >= 1
    ensures Bounded(Singletons(n), Capacity(n, k))
  {
    forall g | g in Singletons(n) ensures |g| <= Capacity(n, k) {
      var i :| 0 <= i < n && Singletons(n)[i] == g;
    }
  }
}
