/**
 * The vertex-to-path index that `initialize` builds and the vertex weights
 * derived from it, as functions of the path list.
 *
 * A path is a sequence of vertex ids and is known by its index in the path
 * list. A path is registered against each vertex at each of its positions
 * except the last, once per position.
 */
module PathIndex {

  /** The part of a path that is indexed: every position but the last. */
  function Interior(path: seq<int>): seq<int>
  {
    if path == [] then [] else path[..|path| - 1]
  }

  /** `c` copies of the path index `p`. */
  function Repeat(p: nat, c: nat): seq<nat>
  {
    seq(c, _ => p)
  }

  /**
   * The entry of the index for vertex `v`: the indices of the paths through
   * `v`, in the order the index build appends them (path by path, and for
   * each path once per non-final position holding `v`).
   */
  function Through(paths: seq<seq<int>>, v: int): (r: seq<nat>)
    ensures forall i :: 0 <= i < |r| ==> r[i] < |paths|
  {
    if paths == [] then []
    else
      var L := |paths| - 1;
      var r' := Through(paths[..L], v);
      assert forall i :: 0 <= i < |r'| ==> r'[i] < L;
      r' + Repeat(L, multiset(Interior(paths[L]))[v])
  }

  /** The total number of vertices of the paths `qs`: a vertex's weight. */
  function TotalLength(paths: seq<seq<int>>, qs: seq<nat>): nat
    requires forall i :: 0 <= i < |qs| ==> qs[i] < |paths|
  {
    if qs == [] then 0 else TotalLength(paths, qs[..|qs| - 1]) + |paths[qs[|qs| - 1]]|
  }

  /**
   * The weight of `v` counted path by path: each path adds its length once
   * for every non-final position at which it visits `v`.
   */
  function OccurrenceWeight(paths: seq<seq<int>>, v: int): nat
  {
    if paths == [] then 0
    else
      var last := paths[|paths| - 1];
      OccurrenceWeight(paths[..|paths| - 1], v) + |last| * multiset(Interior(last))[v]
  }

  /** The vertices some path visits at a position other than its last. */
  function Registered(paths: seq<seq<int>>): set<int>
  {
    set p, i | 0 <= p < |paths| && 0 <= i < |paths[p]| - 1 :: paths[p][i]
  }

  /** The vertex index: each registered vertex with its entry. */
  function Index(paths: seq<seq<int>>): map<int, seq<nat>>
  {
    map v | v in Registered(paths) :: Through(paths, v)
  }

  /** The weight table: each registered vertex with its weight. */
  function Weights(paths: seq<seq<int>>): map<int, nat>
  {
    map v | v in Registered(paths) :: OccurrenceWeight(paths, v)
  }

  lemma RepeatCount(p: nat, c: nat, q: nat)
    ensures multiset(Repeat(p, c))[q] == if q == p then c else 0
  {
    if c > 0 {
      assert Repeat(p, c) == Repeat(p, c - 1) + [p];
      RepeatCount(p, c - 1, q);
    }
  }

  /**
   * Path `p` occurs in the entry of `v` exactly as many times as `v` occurs
   * in `p` outside its final position; no other index occurs.
   */
  lemma {:induction false} ThroughCount(paths: seq<seq<int>>, v: int, p: nat)
    ensures multiset(Through(paths, v))[p]
         == if p < |paths| then multiset(Interior(paths[p]))[v] else 0
  {
    if paths != [] {
      var L := |paths| - 1;
      ThroughCount(paths[..L], v, p);
      RepeatCount(L, multiset(Interior(paths[L]))[v], p);
      if p < L {
        assert paths[..L][p] == paths[p];
      }
    }
  }

  /**
   * A vertex has an entry exactly when some path visits it at a position
   * other than its last.
   */
  lemma ThroughNonEmpty(paths: seq<seq<int>>, v: int)
    ensures Through(paths, v) != []
        <==> exists p, i :: 0 <= p < |paths| && 0 <= i < |paths[p]| - 1 && paths[p][i] == v
  {
    var r := Through(paths, v);
    if r != [] {
      var p := r[0];
      assert p in multiset(r);
      ThroughCount(paths, v, p);
      assert v in multiset(Interior(paths[p]));
      var i :| 0 <= i < |Interior(paths[p])| && Interior(paths[p])[i] == v;
      assert paths[p][i] == v;
    }
    if exists p, i :: 0 <= p < |paths| && 0 <= i < |paths[p]| - 1 && paths[p][i] == v {
      var p, i :| 0 <= p < |paths| && 0 <= i < |paths[p]| - 1 && paths[p][i] == v;
      assert Interior(paths[p])[i] == v;
      assert v in multiset(Interior(paths[p]));
      ThroughCount(paths, v, p);
      assert p in multiset(r);
    }
  }

  /** A path is not registered against a final vertex that it visits only at the end. */
  lemma TerminalNotRegistered(paths: seq<seq<int>>, p: nat)
    requires p < |paths| && paths[p] != []
    requires paths[p][|paths[p]| - 1] !in Interior(paths[p])
    ensures p !in Through(paths, paths[p][|paths[p]| - 1])
  {
    ThroughCount(paths, paths[p][|paths[p]| - 1], p);
  }

  /** The entry lists paths in path order. */
  lemma {:induction false} ThroughOrdered(paths: seq<seq<int>>, v: int)
    ensures forall i, j :: 0 <= i < j < |Through(paths, v)| ==> Through(paths, v)[i] <= Through(paths, v)[j]
  {
    if paths != [] {
      var L := |paths| - 1;
      ThroughOrdered(paths[..L], v);
    }
  }

  lemma {:induction false} TotalLengthAppend(paths: seq<seq<int>>, a: seq<nat>, b: seq<nat>)
    requires forall i :: 0 <= i < |a| ==> a[i] < |paths|
    requires forall i :: 0 <= i < |b| ==> b[i] < |paths|
    ensures TotalLength(paths, a + b) == TotalLength(paths, a) + TotalLength(paths, b)
    decreases |b|
  {
    if b == [] {
      assert a + b == a;
    } else {
      assert (a + b)[..|a + b| - 1] == a + b[..|b| - 1];
      TotalLengthAppend(paths, a, b[..|b| - 1]);
    }
  }

  lemma {:induction false} TotalLengthRepeat(paths: seq<seq<int>>, p: nat, c: nat)
    requires p < |paths|
    ensures TotalLength(paths, Repeat(p, c)) == c * |paths[p]|
  {
    if c > 0 {
      assert Repeat(p, c)[..c - 1] == Repeat(p, c - 1);
      TotalLengthRepeat(paths, p, c - 1);
    }
  }

  /**
   * The weight the index build computes for `v` is the sum, over the paths,
   * of each path's length times the number of its non-final visits to `v`.
   */
  lemma {:induction false} WeightByOccurrence(paths: seq<seq<int>>, v: int)
    ensures TotalLength(paths, Through(paths, v)) == OccurrenceWeight(paths, v)
  {
    if paths != [] {
      var L := |paths| - 1;
      var c := multiset(Interior(paths[L]))[v];
      var r' := Through(paths[..L], v);
      assert Through(paths, v) == r' + Repeat(L, c);
      WeightByOccurrence(paths[..L], v);
      TotalLengthPrefix(paths, L, r');
      assert TotalLength(paths, r') == OccurrenceWeight(paths[..L], v);
      TotalLengthAppend(paths, r', Repeat(L, c));
      TotalLengthRepeat(paths, L, c);
      assert OccurrenceWeight(paths, v) == OccurrenceWeight(paths[..L], v) + |paths[L]| * c;
    }
  }

  /** Extending the path list does not change the length of paths already there. */
  lemma {:induction false} TotalLengthPrefix(paths: seq<seq<int>>, m: nat, qs: seq<nat>)
    requires m <= |paths|
    requires forall i :: 0 <= i < |qs| ==> qs[i] < m
    ensures TotalLength(paths[..m], qs) == TotalLength(paths, qs)
  {
    if qs != [] {
      TotalLengthPrefix(paths, m, qs[..|qs| - 1]);
    }
  }

  /** Taking one more path into account appends it to the entry once per non-final visit. */
  lemma ThroughSnoc(paths: seq<seq<int>>, p: nat, v: int)
    requires p < |paths|
    ensures Through(paths[..p + 1], v) == Through(paths[..p], v) + Repeat(p, multiset(Interior(paths[p]))[v])
  {
    assert paths[..p + 1][..p] == paths[..p];
    assert paths[..p + 1][p] == paths[p];
  }

  /**
   * The index has an entry for exactly the vertices with paths through them,
   * each entry a nonempty list of path positions.
   */
  lemma IndexEntries(paths: seq<seq<int>>)
    ensures forall v :: v in Index(paths) <==> Through(paths, v) != []
    ensures forall v :: v in Index(paths) ==> Index(paths)[v] == Through(paths, v) && Index(paths)[v] != []
    ensures Weights(paths).Keys == Index(paths).Keys
  {
    forall v ensures v in Index(paths) <==> Through(paths, v) != [] {
      ThroughNonEmpty(paths, v);
      if Through(paths, v) != [] {
        var p, i :| 0 <= p < |paths| && 0 <= i < |paths[p]| - 1 && paths[p][i] == v;
        assert v in Registered(paths);
      }
    }
  }

  /** A map with an entry `Through(paths, v)` for exactly the vertices with paths through them is the index. */
  lemma IndexUnique(paths: seq<seq<int>>, m: map<int, seq<nat>>)
    requires forall v :: v in m <==> Through(paths, v) != []
    requires forall v :: v in m ==> m[v] == Through(paths, v)
    ensures m == Index(paths)
  {
    IndexEntries(paths);
    forall v ensures v in m.Keys <==> v in Index(paths).Keys {
      assert v in m <==> Through(paths, v) != [];
    }
    assert m.Keys == Index(paths).Keys;
  }

  /**
   * A table over the indexed vertices that weighs each by the total length
   * of its entry is the weight table.
   */
  lemma WeightsUnique(paths: seq<seq<int>>, w: map<int, nat>)
    requires w.Keys == Index(paths).Keys
    requires forall v :: v in w ==> w[v] == TotalLength(paths, Index(paths)[v])
    ensures w == Weights(paths)
  {
    IndexEntries(paths);
    forall v | v in w ensures w[v] == Weights(paths)[v] {
      WeightByOccurrence(paths, v);
      assert Index(paths)[v] == Through(paths, v);
    }
    assert w.Keys == Weights(paths).Keys;
  }

  // ---------------------------------------------------------------------------
  // The index as the build loop grows it

  /** The entry of `v` in `m`, empty when `m` has none. */
  function EntryOf(m: map<int, seq<nat>>, v: int): seq<nat>
  {
    if v in m then m[v] else []
  }

  /** No entry of `m` is empty: a vertex is present exactly when some path is registered against it. */
  ghost predicate Tight(m: map<int, seq<nat>>)
  {
    forall v :: v in m ==> m[v] != []
  }

  /** `m` after registering path `p` against the vertices at the first `i` positions of `path`, in order. */
  function Register(m: map<int, seq<nat>>, path: seq<int>, p: nat, i: nat): map<int, seq<nat>>
    requires i <= |path|
  {
    if i == 0 then m
    else
      var m' := Register(m, path, p, i - 1);
      m'[path[i - 1] := EntryOf(m', path[i - 1]) + [p]]
  }

  /** The index once the first `p` paths are registered. */
  function IndexPrefix(paths: seq<seq<int>>, p: nat): map<int, seq<nat>>
    requires p <= |paths|
  {
    if p == 0 then map[]
    else Register(IndexPrefix(paths, p - 1), paths[p - 1], p - 1, |Interior(paths[p - 1])|)
  }

  /** Registering appends `p` to the entry of `v` once per position holding `v`. */
  lemma {:induction false} RegisterEntry(m: map<int, seq<nat>>, path: seq<int>, p: nat, i: nat, v: int)
    requires i <= |path|
    ensures EntryOf(Register(m, path, p, i), v) == EntryOf(m, v) + Repeat(p, multiset(path[..i])[v])
  {
    if i == 0 {
      assert Repeat(p, multiset(path[..0])[v]) == [];
    } else {
      RegisterEntry(m, path, p, i - 1, v);
      var c := multiset(path[..i - 1])[v];
      var hit := if path[i - 1] == v then 1 else 0;
      CountSnoc(path, i, v);
      RepeatAdd(p, c, hit);
      RegisterStep(m, path, p, i, v);
    }
  }

  /** One more position adds one occurrence of its own vertex and none of any other. */
  lemma CountSnoc(path: seq<int>, i: nat, v: int)
    requires 0 < i <= |path|
    ensures multiset(path[..i])[v] == multiset(path[..i - 1])[v] + (if path[i - 1] == v then 1 else 0)
  {
    assert path[..i] == path[..i - 1] + [path[i - 1]];
  }

  /** The last registration step appends `p` to the entry of the vertex at position `i - 1` only. */
  lemma RegisterStep(m: map<int, seq<nat>>, path: seq<int>, p: nat, i: nat, v: int)
    requires 0 < i <= |path|
    ensures EntryOf(Register(m, path, p, i), v)
         == EntryOf(Register(m, path, p, i - 1), v) + Repeat(p, if path[i - 1] == v then 1 else 0)
  {
    assert Repeat(p, 0) == [] && Repeat(p, 1) == [p];
  }

  lemma RepeatAdd(p: nat, a: nat, b: nat)
    ensures Repeat(p, a + b) == Repeat(p, a) + Repeat(p, b)
  {
  }

  /** Registering only adds nonempty entries. */
  lemma {:induction false} RegisterTight(m: map<int, seq<nat>>, path: seq<int>, p: nat, i: nat)
    requires i <= |path| && Tight(m)
    ensures Tight(Register(m, path, p, i))
  {
    if i > 0 {
      RegisterTight(m, path, p, i - 1);
    }
  }

  /** After the first `p` paths, the entry of `v` lists the paths among them through `v`. */
  lemma {:induction false} IndexPrefixEntry(paths: seq<seq<int>>, p: nat, v: int)
    requires p <= |paths|
    ensures EntryOf(IndexPrefix(paths, p), v) == Through(paths[..p], v)
  {
    if p == 0 {
      assert paths[..0] == [];
    } else {
      var q := p - 1;
      var n := |Interior(paths[q])|;
      IndexPrefixEntry(paths, q, v);
      RegisterEntry(IndexPrefix(paths, q), paths[q], q, n, v);
      assert paths[q][..n] == Interior(paths[q]);
      ThroughSnoc(paths, q, v);
    }
  }

  /** The index under construction never holds an empty entry. */
  lemma {:induction false} IndexPrefixTight(paths: seq<seq<int>>, p: nat)
    requires p <= |paths|
    ensures Tight(IndexPrefix(paths, p))
  {
    if p > 0 {
      IndexPrefixTight(paths, p - 1);
      RegisterTight(IndexPrefix(paths, p - 1), paths[p - 1], p - 1, |Interior(paths[p - 1])|);
    }
  }

  /** Registering every path yields the index. */
  lemma IndexPrefixComplete(paths: seq<seq<int>>)
    ensures IndexPrefix(paths, |paths|) == Index(paths)
  {
    var m := IndexPrefix(paths, |paths|);
    IndexPrefixTight(paths, |paths|);
    assert paths[..|paths|] == paths;
    forall v ensures v in m <==> Through(paths, v) != [] {
      IndexPrefixEntry(paths, |paths|, v);
    }
    forall v | v in m ensures m[v] == Through(paths, v) {
      IndexPrefixEntry(paths, |paths|, v);
    }
    IndexUnique(paths, m);
  }
}
