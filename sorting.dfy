/**
 * A stable sort by an integer key: the model of `Collections.sort` with a
 * comparator on one numeric attribute. The algorithm sorts groups by
 * size (phase 3) and orders vertices by weight (phase 2) with it.
 *
 * Java's `Collections.sort` is a stable merge sort. A stable sort's result is
 * fully determined by its input (SortedStableUnique below), so the insertion
 * sort defined here yields exactly the list the library yields.
 */
module Sorting {

  /** Keys never decrease from left to right. */
  ghost predicate SortedBy<T>(s: seq<T>, key: T -> int)
  {
    forall i, j :: 0 <= i < j < |s| ==> key(s[i]) <= key(s[j])
  }

  /** The elements of `s` whose key is `c`, in their order in `s`. */
  function KeyClass<T>(s: seq<T>, key: T -> int, c: int): seq<T>
  {
    if s == [] then []
    else KeyClass(s[..|s| - 1], key, c) + (if key(s[|s| - 1]) == c then [s[|s| - 1]] else [])
  }

  /**
   * Inserts `x` into a sorted `s` after every element whose key is not larger,
   * so that `x` follows the elements with its own key that were there before.
   */
  function Insert<T>(x: T, s: seq<T>, key: T -> int): (r: seq<T>)
    ensures multiset(r) == multiset(s) + multiset{x}
  {
    if s == [] || key(s[|s| - 1]) <= key(x) then s + [x]
    else
      assert s == s[..|s| - 1] + [s[|s| - 1]];
      Insert(x, s[..|s| - 1], key) + [s[|s| - 1]]
  }

  lemma {:induction false} InsertSorted<T>(x: T, s: seq<T>, key: T -> int)
    requires SortedBy(s, key)
    ensures SortedBy(Insert(x, s, key), key)
    decreases |s|
  {
    if s != [] && key(s[|s| - 1]) > key(x) {
      var s', last := s[..|s| - 1], s[|s| - 1];
      var r' := Insert(x, s', key);
      assert SortedBy(s', key);
      InsertSorted(x, s', key);
      assert forall y :: y in r' ==> key(y) <= key(last) by {
        forall y | y in r' ensures key(y) <= key(last) {
          assert y in multiset(r');
          if y != x {
            assert y in s';
          }
        }
      }
      SortedSnoc(r', last, key);
      assert Insert(x, s, key) == r' + [last];
    } else {
      assert forall y :: y in s ==> key(y) <= key(x) by {
        forall y | y in s ensures key(y) <= key(x) {
          assert key(y) <= key(s[|s| - 1]);
        }
      }
      SortedSnoc(s, x, key);
    }
  }

  /** Appending an element whose key is at least every key keeps a sequence sorted. */
  lemma SortedSnoc<T>(s: seq<T>, x: T, key: T -> int)
    requires SortedBy(s, key)
    requires forall y :: y in s ==> key(y) <= key(x)
    ensures SortedBy(s + [x], key)
  {
    var r := s + [x];
    forall i, j | 0 <= i < j < |r| ensures key(r[i]) <= key(r[j]) {
      if j == |s| { assert r[i] in s; }
    }
  }

  /** Sorts `s` by `key`, keeping the input order among equal keys. */
  function SortBy<T>(s: seq<T>, key: T -> int): (r: seq<T>)
    ensures multiset(r) == multiset(s)
    ensures SortedBy(r, key)
  {
    if s == [] then []
    else
      assert s == s[..|s| - 1] + [s[|s| - 1]];
      var sorted := SortBy(s[..|s| - 1], key);
      InsertSorted(s[|s| - 1], sorted, key);
      Insert(s[|s| - 1], sorted, key)
  }

  /** A key class holds elements of the sequence, all with that key. */
  lemma {:induction false} KeyClassMembers<T>(s: seq<T>, key: T -> int, c: int)
    ensures forall x :: x in KeyClass(s, key, c) ==> x in s && key(x) == c
    decreases |s|
  {
    if s != [] {
      KeyClassMembers(s[..|s| - 1], key, c);
    }
  }

  /** Inserting `x` appends it to the end of its own key class and leaves the others alone. */
  lemma {:induction false} InsertStable<T>(x: T, s: seq<T>, key: T -> int, c: int)
    ensures KeyClass(Insert(x, s, key), key, c)
         == KeyClass(s, key, c) + (if key(x) == c then [x] else [])
    decreases |s|
  {
    var tail := if key(x) == c then [x] else [];
    if s == [] || key(s[|s| - 1]) <= key(x) {
      assert KeyClass(s + [x], key, c) == KeyClass(s, key, c) + tail by {
        assert (s + [x])[..|s|] == s;
      }
    } else {
      var s', last := s[..|s| - 1], s[|s| - 1];
      var r' := Insert(x, s', key);
      assert Insert(x, s, key) == r' + [last];
      assert (r' + [last])[..|r'|] == r';
      InsertStable(x, s', key, c);
      if key(last) == c {
        // `x` has a smaller key than `last`, so it is not in class `c`.
        assert KeyClass(r', key, c) == KeyClass(s', key, c);
        assert KeyClass(Insert(x, s, key), key, c) == KeyClass(r', key, c) + [last];
        assert KeyClass(s, key, c) == KeyClass(s', key, c) + [last];
      } else {
        assert KeyClass(Insert(x, s, key), key, c) == KeyClass(r', key, c);
        assert KeyClass(s, key, c) == KeyClass(s', key, c);
      }
    }
  }

  /** Sorting keeps every key class in input order: the sort is stable. */
  lemma {:induction false} SortStable<T>(s: seq<T>, key: T -> int, c: int)
    ensures KeyClass(SortBy(s, key), key, c) == KeyClass(s, key, c)
    decreases |s|
  {
    if s != [] {
      var s' := s[..|s| - 1];
      SortStable(s', key, c);
      InsertStable(s[|s| - 1], SortBy(s', key), key, c);
    }
  }

  /**
   * Two sorted sequences with the same key classes are equal: any stable sort
   * of a list produces the same result.
   */
  lemma {:induction false} SortedStableUnique<T>(a: seq<T>, b: seq<T>, key: T -> int)
    requires SortedBy(a, key) && SortedBy(b, key)
    requires forall c :: KeyClass(a, key, c) == KeyClass(b, key, c)
    ensures a == b
    decreases |a| + |b|
  {
    if a == [] {
      if b != [] {
        var c := key(b[|b| - 1]);
        KeyClassLastIn(b, key);
      }
    } else if b == [] {
      var c := key(a[|a| - 1]);
      KeyClassLastIn(a, key);
    } else {
      var x, y := a[|a| - 1], b[|b| - 1];
      var a', b' := a[..|a| - 1], b[..|b| - 1];
      // The last elements carry the largest key of each sequence, and so the same key.
      assert key(x) == key(y) by {
        KeyClassLastIn(a, key);
        KeyClassLastIn(b, key);
        if key(x) < key(y) {
          KeyClassMembers(a, key, key(y));
        } else if key(y) < key(x) {
          KeyClassMembers(b, key, key(x));
        }
      }
      assert x == y by {
        KeyClassLastIn(a, key);
        KeyClassLastIn(b, key);
      }
      assert forall c :: KeyClass(a', key, c) == KeyClass(b', key, c) by {
        forall c ensures KeyClass(a', key, c) == KeyClass(b', key, c) {
          var tail := if key(x) == c then [x] else [];
          var ka, kb := KeyClass(a', key, c), KeyClass(b', key, c);
          assert KeyClass(a, key, c) == ka + tail;
          assert KeyClass(b, key, c) == kb + tail;
          assert ka == (ka + tail)[..|ka|];
          assert kb == (kb + tail)[..|kb|];
        }
      }
      assert SortedBy(a', key) && SortedBy(b', key);
      SortedStableUnique(a', b', key);
      assert a == a' + [x] && b == b' + [y];
    }
  }

  /**
   * In a sorted nonempty sequence the last element closes its key class, and
   * no element has a larger key.
   */
  lemma {:induction false} KeyClassLastIn<T>(s: seq<T>, key: T -> int)
    requires SortedBy(s, key) && s != []
    ensures forall x :: x in s ==> key(x) <= key(s[|s| - 1])
    ensures KeyClass(s, key, key(s[|s| - 1])) != []
    ensures KeyClass(s, key, key(s[|s| - 1]))[|KeyClass(s, key, key(s[|s| - 1]))| - 1] == s[|s| - 1]
  {
  }
}
