/**
 * Path groups and the partition they form.
 *
 * A path is known by its index 0..n-1 in the list of end-to-end paths, a group
 * is the sequence of the indices of its paths, and the partition (the field
 * `result` of the algorithm) is the sequence of live groups. This module holds
 * the value-level operations the algorithm applies to the partition, and the
 * facts about them.
 */
module Groups {
  import Sorting

  type Group = seq<nat>

  /** All paths of all groups, group after group. */
  function Flatten(gs: seq<Group>): seq<nat>
  {
    if gs == [] then [] else Flatten(gs[..|gs| - 1]) + gs[|gs| - 1]
  }

  /** The path indices 0..n-1. */
  function Iota(n: nat): seq<nat>
  {
    seq(n, i => i)
  }

  /** One singleton group per path, in path order. */
  function Singletons(n: nat): seq<Group>
  {
    seq(n, i => [i])
  }

  /**
   * `gs` partitions the paths 0..n-1: every path occurs in exactly one group,
   * exactly once, nothing else occurs, and no group is empty.
   */
  ghost predicate Partition(gs: seq<Group>, n: nat)
  {
    && multiset(Flatten(gs)) == multiset(Iota(n))
    && forall g :: g in gs ==> g != []
  }

  /** No position occurs twice. */
  ghost predicate Distinct(ts: seq<nat>)
  {
    forall i, j :: 0 <= i < j < |ts| ==> ts[i] != ts[j]
  }

  /** Every element of `a` occurs in `b`. */
  ghost predicate Subset(a: Group, b: Group)
  {
    forall x :: x in a ==> x in b
  }

  /** The group `g` holds at least one of the paths `ps`. */
  ghost predicate Touches(g: Group, ps: seq<nat>)
  {
    exists p :: p in ps && p in g
  }

  /** All paths `ps` lie in one group of `gs`. */
  ghost predicate Coherent(gs: seq<Group>, ps: seq<nat>)
  {
    exists h :: h in gs && forall p :: p in ps ==> p in h
  }

  /** Every group of `before` lies inside some group of `after`: groups were only merged. */
  ghost predicate Coarsens(after: seq<Group>, before: seq<Group>)
  {
    forall g :: g in before ==> exists h :: h in after && Subset(g, h)
  }

  /** Every position of `ts` is below m. */
  ghost predicate Within(ts: seq<nat>, m: nat)
  {
    forall i :: 0 <= i < |ts| ==> ts[i] < m
  }

  function Elems(ts: seq<nat>): set<nat>
  {
    set t | t in ts
  }

  // ---------------------------------------------------------------------------
  // Flatten and Iota

  lemma {:induction false} FlattenAppend(a: seq<Group>, b: seq<Group>)
    ensures Flatten(a + b) == Flatten(a) + Flatten(b)
    decreases |b|
  {
    if b == [] {
      assert a + b == a;
    } else {
      var b', y := b[..|b| - 1], b[|b| - 1];
      assert (a + b)[..|a + b| - 1] == a + b';
      calc {
        Flatten(a + b);
        Flatten(a + b') + y;
        { FlattenAppend(a, b'); }
        (Flatten(a) + Flatten(b')) + y;
        Flatten(a) + (Flatten(b') + y);
        Flatten(a) + Flatten(b);
      }
    }
  }

  lemma FlattenSingle(g: Group)
    ensures Flatten([g]) == g
  {
    var none: seq<Group> := [];
    assert [g][..0] == none;
  }

  /** A path occurs in the flattened partition exactly when some group holds it. */
  lemma {:induction false} InFlatten(gs: seq<Group>, x: nat)
    ensures x in Flatten(gs) <==> exists i :: 0 <= i < |gs| && x in gs[i]
    decreases |gs|
  {
    if gs != [] {
      var gs' := gs[..|gs| - 1];
      InFlatten(gs', x);
      if x in Flatten(gs') {
        var i :| 0 <= i < |gs'| && x in gs'[i];
        assert gs[i] == gs'[i];
      }
      if exists i :: 0 <= i < |gs| && x in gs[i] {
        var i :| 0 <= i < |gs| && x in gs[i];
        if i < |gs'| {
          assert gs'[i] == gs[i];
        }
      }
    }
  }

  /** Every path index below n occurs once in Iota(n); nothing else occurs. */
  lemma {:induction false} IotaCount(n: nat, x: nat)
    ensures multiset(Iota(n))[x] == if x < n then 1 else 0
  {
    if n > 0 {
      assert Iota(n) == Iota(n - 1) + [n - 1];
      IotaCount(n - 1, x);
    }
  }

  /**
   * The list of singleton groups is a partition of the paths: this is the
   * state `initialize` leaves `result` in.
   */
  lemma {:induction false} SingletonsPartition(n: nat)
    ensures Partition(Singletons(n), n)
    ensures |Singletons(n)| == n
  {
    SingletonsFlatten(n);
  }

  lemma {:induction false} SingletonsFlatten(n: nat)
    ensures Flatten(Singletons(n)) == Iota(n)
  {
    if n > 0 {
      assert Singletons(n)[..n - 1] == Singletons(n - 1);
      SingletonsFlatten(n - 1);
      assert Iota(n) == Iota(n - 1) + [n - 1];
    }
  }

  /** In a partition, a path has one owning group. */
  lemma UniqueOwner(gs: seq<Group>, n: nat, p: nat, i: nat, j: nat)
    requires Partition(gs, n)
    requires i < |gs| && j < |gs|
    requires p in gs[i] && p in gs[j]
    ensures i == j
  {
    if i != j {
      var all := multiset(Flatten(gs));
      var withoutI := multiset(Flatten(Drop(gs, {i})));
      var withoutIJ := multiset(Flatten(Drop(gs, {i} + {j})));
      DropNone(gs);
      DropSplit(gs, {}, i);
      assert {} + {i} == {i};
      assert all == withoutI + multiset(gs[i]);
      DropSplit(gs, {i}, j);
      assert withoutI == withoutIJ + multiset(gs[j]);
      assert multiset(gs[i])[p] >= 1 && multiset(gs[j])[p] >= 1;
      assert all[p] >= 2;
      IotaCount(n, p);
      assert false;
    }
  }

  /**
   * The groups of a partition are pairwise different, so comparing groups by
   * contents (as `ArrayList.equals` does) tells them apart exactly as
   * comparing their positions does.
   */
  lemma GroupsDistinct(gs: seq<Group>, n: nat, i: nat, j: nat)
    requires Partition(gs, n)
    requires i < j < |gs|
    ensures gs[i] != gs[j]
  {
    assert gs[i] in gs;
    if gs[i] == gs[j] {
      UniqueOwner(gs, n, gs[i][0], i, j);
    }
  }

  /** Every path of a partition lies in some group. */
  lemma Owner(gs: seq<Group>, n: nat, p: nat) returns (i: nat)
    requires Partition(gs, n) && p < n
    ensures i < |gs| && p in gs[i]
  {
    IotaCount(n, p);
    assert p in multiset(Flatten(gs));
    InFlatten(gs, p);
    i :| 0 <= i < |gs| && p in gs[i];
  }

  // ---------------------------------------------------------------------------
  // Removing groups by position

  /** `gs` without the groups at the positions in `gone`, the others in order. */
  function Drop(gs: seq<Group>, gone: set<nat>): seq<Group>
  {
    if gs == [] then []
    else Drop(gs[..|gs| - 1], gone) + (if |gs| - 1 in gone then [] else [gs[|gs| - 1]])
  }

  lemma {:induction false} DropNone(gs: seq<Group>)
    ensures Drop(gs, {}) == gs
  {
    if gs != [] {
      DropNone(gs[..|gs| - 1]);
    }
  }

  /** Positions past the end do not matter. */
  lemma {:induction false} DropOutside(gs: seq<Group>, gone: set<nat>, t: nat)
    requires t >= |gs|
    ensures Drop(gs, gone + {t}) == Drop(gs, gone)
  {
    if gs != [] {
      DropOutside(gs[..|gs| - 1], gone, t);
    }
  }

  /** What stands at a dropped position does not matter. */
  lemma {:induction false} DropIgnoresGone(gs: seq<Group>, gone: set<nat>, t: nat, x: Group)
    requires t < |gs| && t in gone
    ensures Drop(gs[t := x], gone) == Drop(gs, gone)
  {
    var L := |gs| - 1;
    if t < L {
      assert gs[t := x][..L] == gs[..L][t := x];
      DropIgnoresGone(gs[..L], gone, t, x);
    } else {
      assert gs[t := x][..L] == gs[..L];
    }
  }

  /** Dropping one more group removes exactly that group's paths. */
  lemma {:induction false} DropSplit(gs: seq<Group>, gone: set<nat>, t: nat)
    requires t < |gs| && t !in gone
    ensures multiset(Flatten(Drop(gs, gone)))
         == multiset(Flatten(Drop(gs, gone + {t}))) + multiset(gs[t])
  {
    var L := |gs| - 1;
    var gs' := gs[..L];
    var gone' := gone + {t};
    FlattenSingle(gs[L]);
    if t == L {
      assert Drop(gs, gone) == Drop(gs', gone) + [gs[L]];
      assert Drop(gs, gone') == Drop(gs', gone');
      DropOutside(gs', gone, t);
      FlattenAppend(Drop(gs', gone), [gs[L]]);
    } else {
      var tail := if L in gone then [] else [gs[L]];
      assert L in gone' <==> L in gone;
      assert Drop(gs, gone) == Drop(gs', gone) + tail;
      assert Drop(gs, gone') == Drop(gs', gone') + tail;
      FlattenAppend(Drop(gs', gone), tail);
      FlattenAppend(Drop(gs', gone'), tail);
      DropSplit(gs', gone, t);
      assert gs'[t] == gs[t];
    }
  }

  /** Dropping the positions of `ts` removes exactly the groups `ts` names. */
  lemma {:induction false} DropAll(gs: seq<Group>, ts: seq<nat>)
    requires Distinct(ts) && Within(ts, |gs|)
    ensures multiset(Flatten(gs))
         == multiset(Flatten(Drop(gs, Elems(ts)))) + multiset(Concat(gs, ts))
    decreases |ts|
  {
    if ts == [] {
      DropNone(gs);
      assert Elems(ts) == {};
    } else {
      var ts', t := ts[..|ts| - 1], ts[|ts| - 1];
      assert ts == ts' + [t];
      assert Elems(ts) == Elems(ts') + {t};
      assert t !in Elems(ts');
      assert Concat(gs, ts) == Concat(gs, ts') + gs[t];
      DropAll(gs, ts');
      DropSplit(gs, Elems(ts'), t);
    }
  }

  /** |Drop(gs, gone)| counts the groups not dropped. */
  lemma {:induction false} DropLength(gs: seq<Group>, gone: set<nat>)
    requires forall t :: t in gone ==> t < |gs|
    ensures |Drop(gs, gone)| == |gs| - |gone|
  {
    if gs != [] {
      var L := |gs| - 1;
      if L in gone {
        var rest := gone - {L};
        assert gone == rest + {L};
        DropOutside(gs[..L], rest, L);
        DropLength(gs[..L], rest);
      } else {
        DropLength(gs[..L], gone);
      }
    } else {
      assert gone == {};
    }
  }

  /** A group whose position is not dropped survives. */
  lemma {:induction false} DropKeeps(gs: seq<Group>, gone: set<nat>, i: nat)
    requires i < |gs| && i !in gone
    ensures gs[i] in Drop(gs, gone)
  {
    var L := |gs| - 1;
    if i < L {
      DropKeeps(gs[..L], gone, i);
    }
  }

  /** Dropping adds nothing. */
  lemma {:induction false} DropSubset(gs: seq<Group>, gone: set<nat>)
    ensures forall g :: g in Drop(gs, gone) ==> g in gs
  {
    if gs != [] {
      var L := |gs| - 1;
      DropSubset(gs[..L], gone);
    }
  }

  /** Every group left by a removal stands at a position that was not removed. */
  lemma {:induction false} DropSurvivors(gs: seq<Group>, gone: set<nat>, g: Group)
    requires g in Drop(gs, gone)
    ensures exists i :: 0 <= i < |gs| && i !in gone && g == gs[i]
  {
    var L := |gs| - 1;
    if g in Drop(gs[..L], gone) {
      DropSurvivors(gs[..L], gone, g);
      var i :| 0 <= i < L && i !in gone && g == gs[..L][i];
      assert g == gs[i];
    } else {
      assert L !in gone && g == gs[L];
    }
  }

  // ---------------------------------------------------------------------------
  // Finding the groups a vertex's paths lie in

  /** The groups at the positions `ts`, concatenated in that order. */
  function Concat(gs: seq<Group>, ts: seq<nat>): Group
    requires Within(ts, |gs|)
  {
    if ts == [] then [] else Concat(gs, ts[..|ts| - 1]) + gs[ts[|ts| - 1]]
  }

  /** The concatenation of the first group found is that group. */
  lemma ConcatFirst(gs: seq<Group>, ts: seq<nat>)
    requires ts != [] && Within(ts, |gs|)
    ensures Concat(gs, ts[..1]) == gs[ts[0]]
  {
    assert ts[..1][..0] == [];
    assert [] + gs[ts[0]] == gs[ts[0]];
  }

  lemma {:induction false} ConcatContains(gs: seq<Group>, ts: seq<nat>)
    requires Within(ts, |gs|)
    ensures forall t: nat :: t in ts ==> Subset(gs[t], Concat(gs, ts))
    ensures forall x :: x in Concat(gs, ts) ==> exists i :: 0 <= i < |ts| && x in gs[ts[i]]
  {
    if ts != [] {
      var ts', last := ts[..|ts| - 1], ts[|ts| - 1];
      ConcatContains(gs, ts');
      assert ts == ts' + [last];
      var c', c := Concat(gs, ts'), Concat(gs, ts);
      assert c == c' + gs[last];
      forall t: nat | t in ts ensures Subset(gs[t], c) {
        if t != last {
          assert t in ts';
        }
      }
      forall x | x in c ensures exists i :: 0 <= i < |ts| && x in gs[ts[i]] {
        if x in c' {
          var i :| 0 <= i < |ts'| && x in gs[ts'[i]];
          assert ts[i] == ts'[i];
        } else {
          assert x in gs[ts[|ts| - 1]];
        }
      }
    }
  }

  /**
   * One sweep of the inner search loop of `mergeVertex`: the positions below
   * `j`, in ascending order, of the groups that hold path `p` and are not yet
   * among `prev`.
   */
  function NewHits(gs: seq<Group>, p: nat, prev: seq<nat>, j: nat): seq<nat>
    requires j <= |gs|
  {
    if j == 0 then []
    else NewHits(gs, p, prev, j - 1) + (if j - 1 !in prev && p in gs[j - 1] then [j - 1] else [])
  }

  /**
   * A sweep finds exactly the positions below `j` of the groups that hold
   * `p` and are not among `prev`, in ascending order.
   */
  lemma {:induction false} NewHitsSpec(gs: seq<Group>, p: nat, prev: seq<nat>, j: nat)
    requires j <= |gs|
    ensures forall t: nat :: t in NewHits(gs, p, prev, j) <==> t < j && t !in prev && p in gs[t]
    ensures forall a, b :: 0 <= a < b < |NewHits(gs, p, prev, j)| ==>
              NewHits(gs, p, prev, j)[a] < NewHits(gs, p, prev, j)[b]
  {
    if j > 0 {
      var r' := NewHits(gs, p, prev, j - 1);
      NewHitsSpec(gs, p, prev, j - 1);
      var r := NewHits(gs, p, prev, j);
      forall a, b | 0 <= a < b < |r| ensures r[a] < r[b] {
        assert r[a] == r'[a];
        if b < |r'| {
          assert r[b] == r'[b];
          assert r'[a] < r'[b];
        } else {
          assert r'[a] in r';
          assert r'[a] < j - 1;
          assert r[b] == j - 1;
        }
      }
    }
  }

  /**
   * Scanning group `j` adds `j` to the positions found so far exactly when
   * it is not among them and holds `p`.
   */
  lemma ScanStep(gs: seq<Group>, p: nat, prev: seq<nat>, j: nat, found: seq<nat>)
    requires j < |gs| && found == prev + NewHits(gs, p, prev, j)
    ensures j !in found && p in gs[j] ==> found + [j] == prev + NewHits(gs, p, prev, j + 1)
    ensures !(j !in found && p in gs[j]) ==> found == prev + NewHits(gs, p, prev, j + 1)
  {
    NewHitsSpec(gs, p, prev, j);
    assert j !in NewHits(gs, p, prev, j);
  }

  /** Before any group is scanned, nothing new is found. */
  lemma ScanStart(gs: seq<Group>, p: nat, prev: seq<nat>)
    ensures prev + NewHits(gs, p, prev, 0) == prev
  {
    assert NewHits(gs, p, prev, 0) == [];
  }

  lemma TouchesSnoc(g: Group, ps: seq<nat>, p: nat)
    ensures Touches(g, ps + [p]) <==> Touches(g, ps) || p in g
  {
    if Touches(g, ps + [p]) {
      var q :| q in ps + [p] && q in g;
      if q != p {
        assert q in ps;
      }
    }
    if Touches(g, ps) {
      var q :| q in ps && q in g;
      assert q in ps + [p];
    }
    if p in g {
      assert p in ps + [p];
    }
  }

  /**
   * The positions of the groups that hold some path of `ps`, in the order
   * `mergeVertex` collects them: path by path, each path's new groups in
   * partition order.
   */
  function Discover(gs: seq<Group>, ps: seq<nat>): seq<nat>
  {
    if ps == [] then []
    else
      var prev := Discover(gs, ps[..|ps| - 1]);
      prev + NewHits(gs, ps[|ps| - 1], prev, |gs|)
  }

  /**
   * The search lists no position twice, only positions of the partition,
   * and exactly the positions of the groups that hold some path of `ps`.
   */
  lemma {:induction false} DiscoverSpec(gs: seq<Group>, ps: seq<nat>)
    ensures Distinct(Discover(gs, ps))
    ensures Within(Discover(gs, ps), |gs|)
    ensures forall t: nat :: t in Discover(gs, ps) <==> t < |gs| && Touches(gs[t], ps)
  {
    var ts := Discover(gs, ps);
    if ps != [] {
      var ps', p := ps[..|ps| - 1], ps[|ps| - 1];
      var prev := Discover(gs, ps');
      var hits := NewHits(gs, p, prev, |gs|);
      DiscoverSpec(gs, ps');
      NewHitsSpec(gs, p, prev, |gs|);
      assert ps == ps' + [p];
      assert forall t: nat :: t < |gs| ==> (Touches(gs[t], ps) <==> Touches(gs[t], ps') || p in gs[t]) by {
        forall t: nat | t < |gs| ensures Touches(gs[t], ps) <==> Touches(gs[t], ps') || p in gs[t] {
          TouchesSnoc(gs[t], ps', p);
        }
      }
      assert forall a :: 0 <= a < |hits| ==> hits[a] in hits;
      assert Distinct(prev + hits) by {
        var r := prev + hits;
        forall a, b | 0 <= a < b < |r| ensures r[a] != r[b] {
          if b < |prev| {
            assert r[a] == prev[a] && r[b] == prev[b];
          } else if a >= |prev| {
            assert r[a] == hits[a - |prev|] && r[b] == hits[b - |prev|];
          } else {
            assert r[a] == prev[a] && prev[a] in prev;
            assert r[b] == hits[b - |prev|] && hits[b - |prev|] in hits;
          }
        }
      }
      forall i | 0 <= i < |ts| ensures ts[i] < |gs| {
        assert ts[i] in ts;
      }
    }
  }

  /**
   * The partition after the merge step of `mergeVertex`: the groups at the
   * positions `ts` are appended, in that order, to the first of them, which
   * stays where it was; the others leave the partition.
   */
  function MergeGroups(gs: seq<Group>, ts: seq<nat>): seq<Group>
    requires ts != [] && Within(ts, |gs|)
  {
    Drop(gs[ts[0] := Concat(gs, ts)], Elems(ts[1..]))
  }

  /** Merging neither loses nor duplicates a path. */
  lemma MergeKeepsPaths(gs: seq<Group>, ts: seq<nat>)
    requires ts != [] && Distinct(ts) && Within(ts, |gs|)
    ensures multiset(Flatten(MergeGroups(gs, ts))) == multiset(Flatten(gs))
  {
    var t0, rest := ts[0], Elems(ts[1..]);
    var merged := Concat(gs, ts);
    var gs' := gs[t0 := merged];
    assert t0 !in rest;
    assert rest + {t0} == Elems(ts);
    DropSplit(gs', rest, t0);
    DropIgnoresGone(gs, Elems(ts), t0, merged);
    DropAll(gs, ts);
  }

  /** Merging |ts| groups into one leaves |ts| - 1 fewer groups. */
  lemma MergeCount(gs: seq<Group>, ts: seq<nat>)
    requires ts != [] && Distinct(ts) && Within(ts, |gs|)
    ensures |MergeGroups(gs, ts)| == |gs| - |ts| + 1
  {
    var rest := Elems(ts[1..]);
    DistinctCard(ts[1..]);
    assert forall t :: t in rest ==> t < |gs|;
    DropLength(gs[ts[0] := Concat(gs, ts)], rest);
  }

  lemma {:induction false} DistinctCard(ts: seq<nat>)
    requires Distinct(ts)
    ensures |Elems(ts)| == |ts|
  {
    if ts != [] {
      var ts', t := ts[..|ts| - 1], ts[|ts| - 1];
      assert Elems(ts) == Elems(ts') + {t};
      assert t !in Elems(ts');
      DistinctCard(ts');
    }
  }

  /**
   * The merged group holds every group of `ts`; every untouched group stays in
   * the partition unchanged; every other group that remains is an untouched
   * one, so the touched groups other than the first are gone.
   */
  lemma MergeShape(gs: seq<Group>, ts: seq<nat>)
    requires ts != [] && Distinct(ts) && Within(ts, |gs|)
    ensures Concat(gs, ts) in MergeGroups(gs, ts)
    ensures forall t: nat :: t in ts ==> Subset(gs[t], Concat(gs, ts))
    ensures forall i :: 0 <= i < |gs| && i !in ts ==> gs[i] in MergeGroups(gs, ts)
    ensures forall g :: g in MergeGroups(gs, ts) ==> g == Concat(gs, ts) || g in gs
    ensures forall g :: g in MergeGroups(gs, ts) ==>
      g == Concat(gs, ts) || exists i :: 0 <= i < |gs| && i !in ts && g == gs[i]
  {
    var t0, rest := ts[0], Elems(ts[1..]);
    var gs' := gs[t0 := Concat(gs, ts)];
    assert t0 !in rest;
    DropKeeps(gs', rest, t0);
    ConcatContains(gs, ts);
    forall i | 0 <= i < |gs| && i !in ts
      ensures gs[i] in MergeGroups(gs, ts)
    {
      assert i !in rest;
      DropKeeps(gs', rest, i);
    }
    DropSubset(gs', rest);
    forall g | g in MergeGroups(gs, ts) && g != Concat(gs, ts)
      ensures exists i :: 0 <= i < |gs| && i !in ts && g == gs[i]
    {
      DropSurvivors(gs', rest, g);
      var i :| 0 <= i < |gs'| && i !in rest && g == gs'[i];
      assert i != t0;
    }
  }

  /**
   * The merge of the groups that `ps` touches keeps the partition, only
   * merges, and leaves all of `ps` in one group.
   */
  lemma MergeDiscovered(gs: seq<Group>, n: nat, ps: seq<nat>)
    requires Partition(gs, n)
    requires ps != [] && forall p :: p in ps ==> p < n
    ensures Discover(gs, ps) != [] && Within(Discover(gs, ps), |gs|)
    ensures Partition(MergeGroups(gs, Discover(gs, ps)), n)
    ensures Coarsens(MergeGroups(gs, Discover(gs, ps)), gs)
    ensures Coherent(MergeGroups(gs, Discover(gs, ps)), ps)
  {
    var ts := Discover(gs, ps);
    DiscoverSpec(gs, ps);
    assert ps[0] in ps;
    var i0 := Owner(gs, n, ps[0]);
    assert Touches(gs[i0], ps);
    assert i0 in ts;
    var r := MergeGroups(gs, ts);
    var merged := Concat(gs, ts);
    MergeKeepsPaths(gs, ts);
    MergeShape(gs, ts);
    assert merged != [] by {
      assert ts[0] in ts;
      assert gs[ts[0]] in gs;
      assert gs[ts[0]][0] in merged;
    }
    forall g | g in r ensures g != [] {
      if g != merged {
        assert g in gs;
      }
    }
    forall g | g in gs ensures exists h :: h in r && Subset(g, h) {
      var i :| 0 <= i < |gs| && gs[i] == g;
      if i in ts {
        assert Subset(g, merged);
      } else {
        assert g in r && Subset(g, g);
      }
    }
    forall p | p in ps ensures p in merged {
      var i := Owner(gs, n, p);
      assert Touches(gs[i], ps);
      assert i in ts;
    }
  }

  /**
   * When the paths `ps` already share one group, the search finds exactly
   * that group: merging a coherent vertex is a no-op that succeeds.
   */
  lemma CoherentFindsOne(gs: seq<Group>, n: nat, ps: seq<nat>)
    requires Partition(gs, n)
    requires ps != [] && forall p :: p in ps ==> p < n
    requires Coherent(gs, ps)
    ensures |Discover(gs, ps)| == 1
  {
    var ts := Discover(gs, ps);
    DiscoverSpec(gs, ps);
    var h :| h in gs && forall p :: p in ps ==> p in h;
    var j :| 0 <= j < |gs| && gs[j] == h;
    assert ps[0] in ps;
    assert Touches(gs[j], ps);
    assert j in ts;
    forall t: nat | t in ts ensures t == j {
      var p :| p in ps && p in gs[t];
      UniqueOwner(gs, n, p, t, j);
    }
    assert ts[0] in ts && ts[|ts| - 1] in ts;
  }

  /** When the search finds one group, that group holds all of `ps`. */
  lemma OneFoundCoherent(gs: seq<Group>, n: nat, ps: seq<nat>)
    requires Partition(gs, n)
    requires forall p :: p in ps ==> p < n
    requires |Discover(gs, ps)| == 1
    ensures Coherent(gs, ps)
  {
    var ts := Discover(gs, ps);
    DiscoverSpec(gs, ps);
    var t0 := ts[0];
    assert ts == [t0];
    assert t0 < |gs|;
    forall p | p in ps ensures p in gs[t0] {
      var i := Owner(gs, n, p);
      assert Touches(gs[i], ps);
      assert i in ts;
    }
    assert gs[t0] in gs;
  }

  /** A vertex on a single path is always coherent. */
  lemma SinglePathCoherent(gs: seq<Group>, n: nat, p: nat)
    requires Partition(gs, n) && p < n
    ensures Coherent(gs, [p])
  {
    var i := Owner(gs, n, p);
    assert gs[i] in gs;
  }

  /** Against a partition, the search finds one group exactly when the paths share a group. */
  lemma CoherentIffOne(gs: seq<Group>, n: nat, ps: seq<nat>)
    requires Partition(gs, n)
    requires ps != [] && forall p :: p in ps ==> p < n
    ensures Coherent(gs, ps) <==> |Discover(gs, ps)| == 1
  {
    if Coherent(gs, ps) {
      CoherentFindsOne(gs, n, ps);
    }
    if |Discover(gs, ps)| == 1 {
      OneFoundCoherent(gs, n, ps);
    }
  }

  lemma CoarsensRefl(gs: seq<Group>)
    ensures Coarsens(gs, gs)
  {
    forall g | g in gs ensures exists h :: h in gs && Subset(g, h) {
      assert Subset(g, g);
    }
  }

  /** Merging after merging is merging. */
  lemma CoarsensTrans(c: seq<Group>, b: seq<Group>, a: seq<Group>)
    requires Coarsens(c, b) && Coarsens(b, a)
    ensures Coarsens(c, a)
  {
    forall g | g in a ensures exists h :: h in c && Subset(g, h) {
      var h :| h in b && Subset(g, h);
      var h' :| h' in c && Subset(h, h');
      assert Subset(g, h');
    }
  }

  /** Paths that share a group keep sharing one as groups merge. */
  lemma CoherencePersists(before: seq<Group>, after: seq<Group>, ps: seq<nat>)
    requires Coherent(before, ps) && Coarsens(after, before)
    ensures Coherent(after, ps)
  {
    var h :| h in before && forall p :: p in ps ==> p in h;
    var h' :| h' in after && Subset(h, h');
  }

  // ---------------------------------------------------------------------------
  // The forced reduction step

  /** The number of paths in a group: the sort key of the reduction phase. */
  function Size(g: Group): int
  {
    |g|
  }

  /**
   * One iteration of the reduction loop: sort the groups by size (stably),
   * append the second group to the first, remove the second.
   */
  function MergeTwoSmallest(gs: seq<Group>): seq<Group>
    requires |gs| >= 2
  {
    var sorted := Sorting.SortBy(gs, Size);
    [sorted[0] + sorted[1]] + sorted[2..]
  }

  /** In a list sorted by size, the second group is no larger than any later one. */
  lemma SmallestTwo(s: seq<Group>)
    requires |s| >= 2 && Sorting.SortedBy(s, Size)
    ensures |s[0]| <= |s[1]|
    ensures forall g :: g in s[2..] ==> |s[1]| <= |g|
  {
    assert Size(s[0]) <= Size(s[1]);
    forall g | g in s[2..] ensures |s[1]| <= |g| {
      var i :| 2 <= i < |s| && s[i] == g;
      assert Size(s[1]) <= Size(s[i]);
    }
  }

  /**
   * The reduction step removes exactly one group, and the group it builds is
   * the union of two groups that are no larger than any group left.
   */
  lemma MergeTwoSmallestSpec(gs: seq<Group>)
    requires |gs| >= 2
    ensures |MergeTwoSmallest(gs)| == |gs| - 1
    ensures exists a, b ::
              && MergeTwoSmallest(gs)[0] == a + b
              && |a| <= |b|
              && multiset(gs) == multiset{a, b} + multiset(MergeTwoSmallest(gs)[1..])
              && forall g :: g in MergeTwoSmallest(gs)[1..] ==> |b| <= |g|
  {
    var s := Sorting.SortBy(gs, Size);
    assert |s| == |gs| by {
      assert |s| == |multiset(s)| == |multiset(gs)| == |gs|;
    }
    var a, b, rest := s[0], s[1], s[2..];
    var r := MergeTwoSmallest(gs);
    assert r == [a + b] + rest;
    assert multiset(gs) == multiset{a, b} + multiset(rest) by {
      assert s == [a, b] + rest;
    }
    SmallestTwo(s);
    assert r[0] == a + b && r[1..] == rest;
  }

  /** Taking one group out of the list takes its paths out of the flattened list. */
  lemma FlattenRemoveAt(b: seq<Group>, i: nat)
    requires i < |b|
    ensures multiset(Flatten(b)) == multiset(Flatten(b[..i] + b[i + 1..])) + multiset(b[i])
  {
    var l, g, r := b[..i], b[i], b[i + 1..];
    assert b[i..] == [g] + r;
    assert b == l + b[i..];
    calc {
      multiset(Flatten(b));
      { FlattenAppend(l, [g] + r); }
      multiset(Flatten(l) + Flatten([g] + r));
      { FlattenAppend([g], r); FlattenSingle(g); }
      multiset(Flatten(l) + (g + Flatten(r)));
      multiset(Flatten(l)) + multiset(g) + multiset(Flatten(r));
      multiset(Flatten(l) + Flatten(r)) + multiset(g);
      { FlattenAppend(l, r); }
      multiset(Flatten(l + r)) + multiset(g);
    }
  }

  lemma {:induction false} FlattenPermutation(a: seq<Group>, b: seq<Group>)
    requires multiset(a) == multiset(b)
    ensures multiset(Flatten(a)) == multiset(Flatten(b))
    decreases |a|
  {
    if a == [] {
      assert |b| == |multiset(b)| == 0;
    } else {
      var a', x := a[..|a| - 1], a[|a| - 1];
      assert a == a' + [x];
      assert x in multiset(b);
      var i :| 0 <= i < |b| && b[i] == x;
      var b' := b[..i] + b[i + 1..];
      assert multiset(a') == multiset(b') by {
        assert b == b[..i] + [x] + b[i + 1..];
        assert multiset(b) == multiset(b[..i]) + multiset{x} + multiset(b[i + 1..]);
        assert multiset(a) == multiset(a') + multiset{x};
        assert multiset(b') == multiset(b[..i]) + multiset(b[i + 1..]);
        assert multiset(a') == multiset(a) - multiset{x};
        assert multiset(b') == multiset(b) - multiset{x};
      }
      calc {
        multiset(Flatten(a));
        { FlattenAppend(a', [x]); FlattenSingle(x); }
        multiset(Flatten(a') + x);
        multiset(Flatten(a')) + multiset(x);
        { FlattenPermutation(a', b'); }
        multiset(Flatten(b')) + multiset(x);
        { FlattenRemoveAt(b, i); }
        multiset(Flatten(b));
      }
    }
  }

  /** Reordering the groups keeps a partition a partition. */
  lemma PartitionPermutation(a: seq<Group>, b: seq<Group>, n: nat)
    requires Partition(a, n) && multiset(a) == multiset(b)
    ensures Partition(b, n)
    ensures Coarsens(b, a)
  {
    FlattenPermutation(a, b);
    forall g | g in b ensures g != [] {
      assert g in multiset(b);
      assert g in a;
    }
    forall g | g in a ensures exists h :: h in b && Subset(g, h) {
      assert g in multiset(a);
      assert g in b && Subset(g, g);
    }
  }

  /** Appending the second group to the first does not change the flattened paths. */
  lemma FlattenFirstTwo(s: seq<Group>)
    requires |s| >= 2
    ensures Flatten([s[0] + s[1]] + s[2..]) == Flatten(s)
  {
    assert s == [s[0], s[1]] + s[2..];
    FlattenAppend([s[0], s[1]], s[2..]);
    FlattenAppend([s[0] + s[1]], s[2..]);
    assert [s[0], s[1]][..1] == [s[0]];
    FlattenSingle(s[0]);
    FlattenSingle(s[0] + s[1]);
  }

  /** Appending the second group to the first keeps the partition and only merges. */
  lemma MergeFirstTwo(s: seq<Group>, n: nat)
    requires Partition(s, n) && |s| >= 2
    ensures Partition([s[0] + s[1]] + s[2..], n)
    ensures Coarsens([s[0] + s[1]] + s[2..], s)
  {
    var r := [s[0] + s[1]] + s[2..];
    FlattenFirstTwo(s);
    assert s[0] in s;
    forall g | g in r ensures g != [] {
      if g != r[0] {
        assert g in s[2..];
        assert g in s;
      }
    }
    forall g | g in s ensures exists h :: h in r && Subset(g, h) {
      var i :| 0 <= i < |s| && s[i] == g;
      if i < 2 {
        assert r[0] in r && Subset(g, r[0]);
      } else {
        assert g == r[i - 1];
        assert g in r && Subset(g, g);
      }
    }
  }

  /** The reduction step keeps the partition and only merges groups. */
  lemma MergeTwoSmallestKeeps(gs: seq<Group>, n: nat)
    requires Partition(gs, n) && |gs| >= 2
    ensures Partition(MergeTwoSmallest(gs), n)
    ensures Coarsens(MergeTwoSmallest(gs), gs)
  {
    var s := Sorting.SortBy(gs, Size);
    assert |s| == |multiset(s)| == |gs|;
    PartitionPermutation(gs, s, n);
    MergeFirstTwo(s, n);
    var r := MergeTwoSmallest(gs);
    forall g | g in gs ensures exists h :: h in r && Subset(g, h) {
      var h :| h in s && Subset(g, h);
      var h' :| h' in r && Subset(h, h');
      assert Subset(g, h');
    }
  }
}
