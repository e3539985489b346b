/** Generic list operations the repositories and services are built from:
    filtering (a `WHERE` clause), ordering by a key (`ORDER BY`), indexing
    a list into a map where a later entry replaces an earlier one
    (`HashMap.put` in a loop) and counting. */
module Query {
  import opened Common

  /** The elements of `xs` that satisfy `p`, in their original order. */
  function Filter<T>(xs: seq<T>, p: T -> bool): (r: seq<T>)
    ensures |r| <= |xs|
    ensures forall i :: 0 <= i < |r| ==> r[i] in xs && p(r[i])
    ensures forall i :: 0 <= i < |xs| && p(xs[i]) ==> xs[i] in r
    decreases |xs|
  {
    if xs == [] then []
    else
      var rest := Filter(xs[1..], p);
      if p(xs[0]) then [xs[0]] + rest else rest
  }

  /** Number of elements of `xs` that satisfy `p`. */
  function Count<T>(xs: seq<T>, p: T -> bool): (n: nat)
    ensures n <= |xs|
    decreases |xs|
  {
    if xs == [] then 0
    else (if p(xs[0]) then 1 else 0) + Count(xs[1..], p)
  }

  /** Counting is filtering and taking the length. */
  lemma {:induction false} CountIsFilterLength<T>(xs: seq<T>, p: T -> bool)
    ensures Count(xs, p) == |Filter(xs, p)|
    decreases |xs|
  {
    if xs != [] {
      CountIsFilterLength(xs[1..], p);
    }
  }

  /** Counts of disjoint predicates add up to at most the length, and to the
      length exactly when every element satisfies one of them. */
  lemma {:induction false} CountsOfDisjoint<T>(xs: seq<T>, p: T -> bool, q: T -> bool)
    requires forall i :: 0 <= i < |xs| ==> !(p(xs[i]) && q(xs[i]))
    ensures Count(xs, p) + Count(xs, q) == Count(xs, x => p(x) || q(x))
    ensures Count(xs, p) + Count(xs, q) <= |xs|
    decreases |xs|
  {
    if xs != [] {
      CountsOfDisjoint(xs[1..], p, q);
    }
  }

  /** Filtering keeps an ascending list ascending. */
  lemma {:induction false} FilterKeepsIncreasing(xs: seq<int>, p: int -> bool)
    requires Increasing(xs)
    ensures Increasing(Filter(xs, p))
    decreases |xs|
  {
    if xs != [] {
      assert forall i, j :: 0 <= i < j < |xs[1..]| ==> Below(xs[1..], i, j) by {
        forall i, j | 0 <= i < j < |xs[1..]|
          ensures Below(xs[1..], i, j)
        {
          assert Below(xs, i + 1, j + 1);
        }
      }
      FilterKeepsIncreasing(xs[1..], p);
      var rest := Filter(xs[1..], p);
      if p(xs[0]) {
        var r := Filter(xs, p);
        assert r == [xs[0]] + rest;
        forall i, j | 0 <= i < j < |r|
          ensures Below(r, i, j)
        {
          if i > 0 {
            assert Below(rest, i - 1, j - 1);
          } else {
            var k :| 0 <= k < |xs[1..]| && xs[1..][k] == rest[j - 1];
            assert Below(xs, 0, k + 1);
          }
        }
      } else {
        assert Filter(xs, p) == rest;
      }
    }
  }

  /** `xs` is ordered by `key`, smallest first. */
  predicate SortedBy<T>(xs: seq<T>, key: T -> int) {
    forall i, j :: 0 <= i < j < |xs| ==> key(xs[i]) <= key(xs[j])
  }

  /** Inserts `x` before the first element with a larger key. */
  function Insert<T>(x: T, xs: seq<T>, key: T -> int): (r: seq<T>)
    requires SortedBy(xs, key)
    ensures SortedBy(r, key)
    ensures multiset(r) == multiset(xs) + multiset{x}
    ensures forall i :: 0 <= i < |r| ==> r[i] == x || r[i] in xs
    decreases |xs|
  {
    if xs == [] then [x]
    else if key(x) < key(xs[0]) then
      BelowHeadSorted(x, xs, key);
      [x] + xs
    else
      var rest := Insert(x, xs[1..], key);
      HeadStaysFirst(x, xs, rest, key);
      HeadThenRest(x, xs, rest);
      [xs[0]] + rest
  }

  /** An element below the head of a sorted sequence may go in front. */
  lemma BelowHeadSorted<T>(x: T, xs: seq<T>, key: T -> int)
    requires SortedBy(xs, key) && xs != [] && key(x) < key(xs[0])
    ensures SortedBy([x] + xs, key)
  {
    forall i | 0 <= i < |xs|
      ensures key(x) <= key(xs[i])
    {
      if i > 0 {
        assert key(xs[0]) <= key(xs[i]);
      }
    }
    ConsSorted(x, xs, key);
  }

  /** Keeping the head and inserting into the tail inserts into the whole. */
  lemma HeadThenRest<T>(x: T, xs: seq<T>, rest: seq<T>)
    requires xs != []
    requires multiset(rest) == multiset(xs[1..]) + multiset{x}
    requires forall i :: 0 <= i < |rest| ==> rest[i] == x || rest[i] in xs[1..]
    ensures multiset([xs[0]] + rest) == multiset(xs) + multiset{x}
    ensures forall i :: 0 <= i < |[xs[0]] + rest| ==> ([xs[0]] + rest)[i] == x || ([xs[0]] + rest)[i] in xs
  {
    assert xs == [xs[0]] + xs[1..];
    forall i | 0 <= i < |[xs[0]] + rest|
      ensures ([xs[0]] + rest)[i] == x || ([xs[0]] + rest)[i] in xs
    {
      if i > 0 {
        assert ([xs[0]] + rest)[i] == rest[i - 1];
      }
    }
  }

  /** The head of a sorted sequence, no greater than `x`, still comes first
      once `x` is inserted into the tail. */
  lemma HeadStaysFirst<T>(x: T, xs: seq<T>, rest: seq<T>, key: T -> int)
    requires SortedBy(xs, key) && xs != [] && key(xs[0]) <= key(x)
    requires SortedBy(rest, key)
    requires forall i :: 0 <= i < |rest| ==> rest[i] == x || rest[i] in xs[1..]
    ensures SortedBy([xs[0]] + rest, key)
  {
    forall i | 0 <= i < |rest|
      ensures key(xs[0]) <= key(rest[i])
    {
      if rest[i] != x {
        var j :| 0 <= j < |xs[1..]| && xs[1..][j] == rest[i];
        assert xs[j + 1] == rest[i];
      }
    }
    ConsSorted(xs[0], rest, key);
  }

  /** An element no greater than any of a sorted sequence can go first. */
  lemma ConsSorted<T>(y: T, rest: seq<T>, key: T -> int)
    requires SortedBy(rest, key)
    requires forall i :: 0 <= i < |rest| ==> key(y) <= key(rest[i])
    ensures SortedBy([y] + rest, key)
  {
    var r := [y] + rest;
    forall i, j | 0 <= i < j < |r|
      ensures key(r[i]) <= key(r[j])
    {
      assert r[j] == rest[j - 1];
      if i > 0 {
        assert r[i] == rest[i - 1];
      }
    }
  }

  /** `ORDER BY key`: a permutation of `xs` ordered by `key`; among equal
      keys the original order is kept, so ids listed ascending stay
      ascending within a tie (`SortByKeepsTies`). */
  function SortBy<T>(xs: seq<T>, key: T -> int): (r: seq<T>)
    ensures SortedBy(r, key)
    ensures multiset(r) == multiset(xs)
    ensures |r| == |xs|
    decreases |xs|
  {
    if xs == [] then []
    else
      var rest := SortBy(xs[..|xs| - 1], key);
      assert xs == xs[..|xs| - 1] + [xs[|xs| - 1]];
      var r := Insert(xs[|xs| - 1], rest, key);
      assert |r| == |multiset(r)|;
      r
  }

  /** Ids with equal keys come in ascending order. */
  predicate TiesAscending(xs: seq<int>, key: int -> int) {
    forall i, j :: 0 <= i < j < |xs| && key(xs[i]) == key(xs[j]) ==> xs[i] < xs[j]
  }

  /** An id greater than every id of a sorted list goes after the ids
      with its key, so ties stay ascending. */
  lemma {:induction false} InsertKeepsTies(x: int, xs: seq<int>, key: int -> int)
    requires SortedBy(xs, key) && TiesAscending(xs, key)
    requires forall i :: 0 <= i < |xs| ==> xs[i] < x
    ensures TiesAscending(Insert(x, xs, key), key)
    decreases |xs|
  {
    if xs == [] {
    } else if key(x) < key(xs[0]) {
      assert Insert(x, xs, key) == [x] + xs;
      FrontKeepsTies(x, xs, key);
    } else {
      var rest := Insert(x, xs[1..], key);
      assert Insert(x, xs, key) == [xs[0]] + rest;
      InsertKeepsTies(x, xs[1..], key);
      HeadKeepsTies(x, xs, rest, key);
    }
  }

  /** An id whose key is below every key of a sorted list ties with none
      of them. */
  lemma FrontKeepsTies(x: int, xs: seq<int>, key: int -> int)
    requires SortedBy(xs, key) && TiesAscending(xs, key)
    requires xs != [] && key(x) < key(xs[0])
    ensures TiesAscending([x] + xs, key)
  {
    var r := [x] + xs;
    forall j | 1 <= j < |r|
      ensures key(r[0]) < key(r[j])
    {
      assert r[j] == xs[j - 1];
      assert key(xs[0]) <= key(xs[j - 1]);
    }
    forall i, j | 1 <= i < j < |r| && key(r[i]) == key(r[j])
      ensures r[i] < r[j]
    {
      assert r[i] == xs[i - 1] && r[j] == xs[j - 1];
    }
  }

  /** Keeping the head in front of a tie-ordered insertion into the tail
      keeps ties ascending. */
  lemma HeadKeepsTies(x: int, xs: seq<int>, rest: seq<int>, key: int -> int)
    requires xs != [] && TiesAscending(xs, key) && TiesAscending(rest, key)
    requires xs[0] < x
    requires forall i :: 0 <= i < |rest| ==> rest[i] == x || rest[i] in xs[1..]
    ensures TiesAscending([xs[0]] + rest, key)
  {
    var r := [xs[0]] + rest;
    forall i, j | 0 <= i < j < |r| && key(r[i]) == key(r[j])
      ensures r[i] < r[j]
    {
      assert r[j] == rest[j - 1];
      if i == 0 {
        if rest[j - 1] != x {
          var k :| 0 <= k < |xs[1..]| && xs[1..][k] == rest[j - 1];
          assert xs[k + 1] == rest[j - 1];
        }
      } else {
        assert r[i] == rest[i - 1];
      }
    }
  }

  /** Sorting ids listed in ascending order keeps each tie in ascending
      id order, as a stable sort does. */
  lemma {:induction false} SortByKeepsTies(xs: seq<int>, key: int -> int)
    requires Increasing(xs)
    ensures TiesAscending(SortBy(xs, key), key)
    decreases |xs|
  {
    if xs != [] {
      var init := xs[..|xs| - 1];
      var x := xs[|xs| - 1];
      InitBelowLast(xs, init);
      SortByKeepsTies(init, key);
      var rest := SortBy(init, key);
      SortedBelow(init, rest, x);
      assert SortBy(xs, key) == Insert(x, rest, key);
      InsertKeepsTies(x, rest, key);
    }
  }

  /** All but the last of an increasing list is increasing and below the
      last. */
  lemma InitBelowLast(xs: seq<int>, init: seq<int>)
    requires Increasing(xs) && xs != [] && init == xs[..|xs| - 1]
    ensures Increasing(init)
    ensures forall i :: 0 <= i < |init| ==> init[i] < xs[|xs| - 1]
  {
    forall i, j | 0 <= i < j < |init|
      ensures Below(init, i, j)
    {
      assert Below(xs, i, j);
    }
    forall i | 0 <= i < |init|
      ensures init[i] < xs[|xs| - 1]
    {
      assert Below(xs, i, |xs| - 1);
    }
  }

  /** A reordering of ids all below `x` has them all below `x`. */
  lemma SortedBelow(init: seq<int>, rest: seq<int>, x: int)
    requires multiset(rest) == multiset(init)
    requires forall i :: 0 <= i < |init| ==> init[i] < x
    ensures forall i :: 0 <= i < |rest| ==> rest[i] < x
  {
    forall i | 0 <= i < |rest|
      ensures rest[i] < x
    {
      assert rest[i] in multiset(init);
      var k :| 0 <= k < |init| && init[k] == rest[i];
    }
  }

  /** Sequences with the same multiset hold the same elements. */
  lemma SameMembers<T>(a: seq<T>, b: seq<T>)
    requires multiset(a) == multiset(b)
    ensures forall i :: 0 <= i < |a| ==> a[i] in b
    ensures forall i :: 0 <= i < |b| ==> b[i] in a
  {
    forall i | 0 <= i < |a|
      ensures a[i] in b
    {
      assert a[i] in multiset(a);
    }
    forall i | 0 <= i < |b|
      ensures b[i] in a
    {
      assert b[i] in multiset(b);
    }
  }

  /** `i` is the last position of `xs` whose key is `k`. */
  predicate IsLastWithKey<T, K(==)>(xs: seq<T>, key: T -> K, k: K, i: int) {
    0 <= i < |xs| && key(xs[i]) == k
    && forall j :: i < j < |xs| ==> key(xs[j]) != k
  }

  /** A map filled by putting every element under its key in order, so a
      later element replaces an earlier one with the same key. */
  function IndexBy<T, K(==)>(xs: seq<T>, key: T -> K): (m: map<K, T>)
    ensures forall k :: k in m ==> key(m[k]) == k
    ensures forall i :: 0 <= i < |xs| ==> key(xs[i]) in m
    ensures forall k :: k in m ==> exists i :: IsLastWithKey(xs, key, k, i) && m[k] == xs[i]
    decreases |xs|
  {
    if xs == [] then map[]
    else
      var init := xs[..|xs| - 1];
      var last := xs[|xs| - 1];
      var m := IndexBy(init, key);
      var r := m[key(last) := last];
      assert IsLastWithKey(xs, key, key(last), |xs| - 1);
      LastWithKeyExtends(init, xs, key, m);
      assert forall i :: 0 <= i < |init| ==> xs[i] == init[i];
      r
  }

  /** A position last for its key in `init` stays last in `xs`, which is
      `init` and one more element, unless that element has the same key. */
  lemma LastWithKeyExtends<T, K>(init: seq<T>, xs: seq<T>, key: T -> K, m: map<K, T>)
    requires xs != [] && init == xs[..|xs| - 1]
    requires forall k :: k in m ==> exists i :: IsLastWithKey(init, key, k, i) && m[k] == init[i]
    ensures forall k :: k in m && k != key(xs[|xs| - 1]) ==> exists i :: IsLastWithKey(xs, key, k, i) && m[k] == xs[i]
  {
    forall k | k in m && k != key(xs[|xs| - 1])
      ensures exists i :: IsLastWithKey(xs, key, k, i) && m[k] == xs[i]
    {
      var i :| IsLastWithKey(init, key, k, i) && m[k] == init[i];
      assert IsLastWithKey(xs, key, k, i);
    }
  }

  /** In an index of an increasing sequence the element kept for a key is
      the greatest with that key. */
  lemma IndexByKeepsGreatest<K>(xs: seq<int>, key: int -> K, j: int)
    requires Increasing(xs) && 0 <= j < |xs|
    ensures key(xs[j]) in IndexBy(xs, key) && xs[j] <= IndexBy(xs, key)[key(xs[j])]
  {
    var m := IndexBy(xs, key);
    var i :| IsLastWithKey(xs, key, key(xs[j]), i) && m[key(xs[j])] == xs[i];
    LastIsGreatest(xs, key, j, i);
  }

  /** In an increasing sequence the last element with a key is the
      greatest with it. */
  lemma LastIsGreatest<K>(xs: seq<int>, key: int -> K, j: int, i: int)
    requires Increasing(xs) && 0 <= j < |xs| && IsLastWithKey(xs, key, key(xs[j]), i)
    ensures xs[j] <= xs[i]
  {
    if j < i {
      assert Below(xs, j, i);
    }
  }

  /** The element an index holds for `k` is the last one with that key,
      whichever of several equal-keyed elements came first. */
  lemma IndexByLastWins<T, K>(xs: seq<T>, key: T -> K, i: int)
    requires 0 <= i < |xs|
    requires forall j :: i < j < |xs| ==> key(xs[j]) != key(xs[i])
    ensures IndexBy(xs, key)[key(xs[i])] == xs[i]
  {
    var m := IndexBy(xs, key);
    var k := key(xs[i]);
    var j :| IsLastWithKey(xs, key, k, j) && m[k] == xs[j];
    assert j == i;
  }

  /** No id occurs twice. */
  predicate NoDuplicates(xs: seq<int>) {
    forall i, j :: 0 <= i < j < |xs| ==> xs[i] != xs[j]
  }

  /** An increasing list has no id twice. */
  lemma IncreasingNoDuplicates(xs: seq<int>)
    requires Increasing(xs)
    ensures NoDuplicates(xs)
  {
    forall i, j | 0 <= i < j < |xs|
      ensures xs[i] != xs[j]
    {
      assert Below(xs, i, j);
    }
  }

  /** A list without duplicates holds each id at most once. */
  lemma {:induction false} NoDuplicatesCount(xs: seq<int>, x: int)
    requires NoDuplicates(xs)
    ensures multiset(xs)[x] <= 1
    decreases |xs|
  {
    if xs != [] {
      assert xs == [xs[0]] + xs[1..];
      assert NoDuplicates(xs[1..]) by {
        forall i, j | 0 <= i < j < |xs[1..]|
          ensures xs[1..][i] != xs[1..][j]
        {
          assert xs[1..][i] == xs[i + 1] && xs[1..][j] == xs[j + 1];
        }
      }
      NoDuplicatesCount(xs[1..], x);
      if x == xs[0] {
        assert x !in xs[1..] by {
          forall k | 0 <= k < |xs[1..]|
            ensures xs[1..][k] != x
          {
            assert xs[1..][k] == xs[k + 1];
          }
        }
      }
    }
  }

  /** An id at two positions is counted twice. */
  lemma TwiceCounted(xs: seq<int>, i: int, j: int)
    requires 0 <= i < j < |xs| && xs[i] == xs[j]
    ensures multiset(xs)[xs[i]] >= 2
  {
    assert xs == xs[..j] + xs[j..];
    assert xs[i] == xs[..j][i];
    assert xs[j] == xs[j..][0];
  }

  /** A permutation of a list without duplicates has none either. */
  lemma PermutationNoDuplicates(a: seq<int>, b: seq<int>)
    requires multiset(a) == multiset(b) && NoDuplicates(b)
    ensures NoDuplicates(a)
  {
    forall i, j | 0 <= i < j < |a|
      ensures a[i] != a[j]
    {
      if a[i] == a[j] {
        TwiceCounted(a, i, j);
        NoDuplicatesCount(b, a[i]);
      }
    }
  }

  /** A merge loop guarded by a `HashSet` of seen ids: each candidate that
      is not yet listed and is `present` is appended. */
  function AppendNew(acc: seq<int>, cands: seq<int>, present: set<int>): (r: seq<int>)
    ensures acc <= r
    ensures NoDuplicates(acc) ==> NoDuplicates(r)
    ensures forall x :: x in r <==> x in acc || (x in cands && x in present)
    decreases |cands|
  {
    if cands == [] then acc
    else
      var c := cands[0];
      assert forall x :: x in cands <==> x == c || x in cands[1..];
      if c in acc || c !in present then AppendNew(acc, cands[1..], present)
      else
        var acc2 := acc + [c];
        var r := AppendNew(acc2, cands[1..], present);
        assert acc <= r by {
          assert acc2[..|acc|] == acc;
          assert r[..|acc2|] == acc2;
        }
        assert NoDuplicates(acc) ==> NoDuplicates(acc2) by {
          if NoDuplicates(acc) {
            forall i, j | 0 <= i < j < |acc2|
              ensures acc2[i] != acc2[j]
            {
              if j == |acc| {
                assert acc2[i] in acc;
              }
            }
          }
        }
        r
  }
}
