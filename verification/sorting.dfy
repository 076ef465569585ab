/** Sorting by a three-way comparator, as `List<T>.Sort(IComparer<T>)` does.

    The model sorts by insertion, which is stable. `List.Sort` is not, but
    every comparator the plugin passes ties only elements that are equal in
    every field it compares, so the two agree on every input the plugin
    produces (see `Benches.BenchCompare`). */
module Sorting {

  /** `cmp(a, b) <= 0` is a total preorder: every two elements are comparable
      and the relation is transitive. */
  ghost predicate TotalPreorder<T(!new)>(cmp: (T, T) -> int) {
    && (forall a, b :: cmp(a, b) <= 0 || cmp(b, a) <= 0)
    && (forall a, b, c :: cmp(a, b) <= 0 && cmp(b, c) <= 0 ==> cmp(a, c) <= 0)
  }

  ghost predicate Sorted<T>(s: seq<T>, cmp: (T, T) -> int) {
    forall i, j :: 0 <= i < j < |s| ==> cmp(s[i], s[j]) <= 0
  }

  /** No two elements share a key. */
  ghost predicate DistinctBy<T, K>(s: seq<T>, key: T -> K) {
    forall i, j :: 0 <= i < j < |s| ==> key(s[i]) != key(s[j])
  }

  /** `x` goes in front of the first element it does not follow. */
  function Insert<T(==)>(x: T, s: seq<T>, cmp: (T, T) -> int): (r: seq<T>)
    ensures |r| == |s| + 1
    ensures multiset(r) == multiset(s) + multiset{x}
  {
    if |s| == 0 then [x]
    else if cmp(x, s[0]) <= 0 then [x] + s
    else
      var rest := Insert(x, s[1..], cmp);
      assert s == [s[0]] + s[1..];
      [s[0]] + rest
  }

  function SortBy<T(==)>(s: seq<T>, cmp: (T, T) -> int): (r: seq<T>)
    ensures |r| == |s|
    ensures multiset(r) == multiset(s)
  {
    if |s| == 0 then []
    else
      var r := Insert(s[0], SortBy(s[1..], cmp), cmp);
      assert s == [s[0]] + s[1..];
      r
  }

  /** A single element is already sorted. */
  lemma SortOne<T>(x: T, cmp: (T, T) -> int)
    ensures SortBy([x], cmp) == [x]
  {
    assert [x][1..] == [];
  }

  /** Every element of `Insert(x, s, cmp)` is `x` or an element of `s`. */
  lemma InsertElements<T>(x: T, s: seq<T>, cmp: (T, T) -> int, k: nat)
    requires k < |s| + 1
    ensures Insert(x, s, cmp)[k] == x || Insert(x, s, cmp)[k] in s
  {
    var y := Insert(x, s, cmp)[k];
    assert y in multiset(Insert(x, s, cmp));
  }

  /** An element that precedes or ties with everything in `s` and with `x`
      precedes or ties with everything in `Insert(x, s, cmp)`. */
  lemma InsertLowerBound<T>(a: T, x: T, s: seq<T>, cmp: (T, T) -> int)
    requires cmp(a, x) <= 0
    requires forall i :: 0 <= i < |s| ==> cmp(a, s[i]) <= 0
    ensures forall k :: 0 <= k < |s| + 1 ==> cmp(a, Insert(x, s, cmp)[k]) <= 0
  {
    forall k | 0 <= k < |s| + 1 ensures cmp(a, Insert(x, s, cmp)[k]) <= 0 {
      InsertElements(x, s, cmp, k);
    }
  }

  lemma {:induction false} InsertSorted<T(!new)>(x: T, s: seq<T>, cmp: (T, T) -> int)
    requires TotalPreorder(cmp) && Sorted(s, cmp)
    ensures Sorted(Insert(x, s, cmp), cmp)
    decreases |s|
  {
    if |s| == 0 {
    } else if cmp(x, s[0]) <= 0 {
      forall j | 0 <= j < |s| ensures cmp(x, s[j]) <= 0 {
        if j > 0 {
          assert cmp(s[0], s[j]) <= 0;
        }
      }
      assert Insert(x, s, cmp) == [x] + s;
    } else {
      InsertSorted(x, s[1..], cmp);
      assert cmp(s[0], x) <= 0;
      InsertLowerBound(s[0], x, s[1..], cmp);
      SortedCons(s[0], Insert(x, s[1..], cmp), cmp);
    }
  }

  /** Prepending an element that precedes or ties with everything keeps a
      sequence sorted. */
  lemma SortedCons<T>(a: T, s: seq<T>, cmp: (T, T) -> int)
    requires Sorted(s, cmp)
    requires forall i :: 0 <= i < |s| ==> cmp(a, s[i]) <= 0
    ensures Sorted([a] + s, cmp)
  {
    var r := [a] + s;
    forall i, j | 0 <= i < j < |r| ensures cmp(r[i], r[j]) <= 0 {
      if i > 0 {
        assert r[i] == s[i - 1] && r[j] == s[j - 1];
      }
    }
  }

  /** The sort's result is ordered by any total-preorder comparator. */
  lemma {:induction false} SortBySorted<T(!new)>(s: seq<T>, cmp: (T, T) -> int)
    requires TotalPreorder(cmp)
    ensures Sorted(SortBy(s, cmp), cmp)
  {
    if |s| > 0 {
      SortBySorted(s[1..], cmp);
      InsertSorted(s[0], SortBy(s[1..], cmp), cmp);
    }
  }

  /** Sorting a sequence that is already in order changes nothing, so
      re-sorting after every mutation is harmless. */
  lemma {:induction false} SortBySortedIsIdentity<T(!new)>(s: seq<T>, cmp: (T, T) -> int)
    requires Sorted(s, cmp)
    ensures SortBy(s, cmp) == s
  {
    if |s| > 0 {
      assert Sorted(s[1..], cmp);
      SortBySortedIsIdentity(s[1..], cmp);
      if |s| > 1 {
        assert cmp(s[0], s[1]) <= 0;
      }
      assert s == [s[0]] + s[1..];
    }
  }

  lemma {:induction false} InsertDistinct<T, K>(x: T, s: seq<T>, cmp: (T, T) -> int, key: T -> K)
    requires DistinctBy(s, key)
    requires forall i :: 0 <= i < |s| ==> key(s[i]) != key(x)
    ensures DistinctBy(Insert(x, s, cmp), key)
    decreases |s|
  {
    if |s| > 0 && cmp(x, s[0]) > 0 {
      var rest := Insert(x, s[1..], cmp);
      InsertDistinct(x, s[1..], cmp, key);
      var r := [s[0]] + rest;
      forall i, j | 0 <= i < j < |r| ensures key(r[i]) != key(r[j]) {
        if i == 0 {
          var y := rest[j - 1];
          assert y in multiset(rest);
          assert y == x || y in multiset(s[1..]);
          if y != x {
            var k :| 1 <= k < |s| && s[k] == y;
          }
        }
      }
    }
  }

  /** Sorting never makes two elements share a key. */
  lemma {:induction false} SortByDistinct<T, K>(s: seq<T>, cmp: (T, T) -> int, key: T -> K)
    requires DistinctBy(s, key)
    ensures DistinctBy(SortBy(s, cmp), key)
  {
    if |s| > 0 {
      var rest := SortBy(s[1..], cmp);
      SortByDistinct(s[1..], cmp, key);
      forall i | 0 <= i < |rest| ensures key(rest[i]) != key(s[0]) {
        var y := rest[i];
        assert y in multiset(rest);
        assert y in multiset(s[1..]);
        var k :| 0 <= k < |s[1..]| && s[1..][k] == y;
        assert s[k + 1] == y;
      }
      InsertDistinct(s[0], rest, cmp, key);
    }
  }

  /** Removing one element keeps a sequence sorted. */
  lemma RemoveAtSorted<T>(s: seq<T>, i: nat, cmp: (T, T) -> int)
    requires i < |s| && Sorted(s, cmp)
    ensures Sorted(s[..i] + s[i + 1..], cmp)
  {
    var r := s[..i] + s[i + 1..];
    forall p, q | 0 <= p < q < |r| ensures cmp(r[p], r[q]) <= 0 {
      var p' := if p < i then p else p + 1;
      var q' := if q < i then q else q + 1;
      assert r[p] == s[p'] && r[q] == s[q'];
    }
  }
}
