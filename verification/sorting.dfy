/**
 * `Array.prototype.sort` with a comparator, as the add-on uses it: a
 * stable sort under a total preorder, modelled as insertion sort over a
 * sequence (each item inserted after every item not after it).
 */
module Sorting {
  import opened Lists

  /** `le(a, b)`: `a` may come before `b`; every two items compare and the relation is transitive. */
  ghost predicate TotalPreorder<T(!new)>(le: (T, T) -> bool)
  {
    && (forall a, b :: le(a, b) || le(b, a))
    && (forall a, b, c :: le(a, b) && le(b, c) ==> le(a, c))
  }

  /** `localeCompare` as an abstract order: irreflexive, transitive and total on distinct items. */
  ghost predicate StrictTotalOrder<T(!new)>(less: (T, T) -> bool)
  {
    && (forall a :: !less(a, a))
    && (forall a, b, c :: less(a, b) && less(b, c) ==> less(a, c))
    && (forall a, b :: a != b ==> less(a, b) || less(b, a))
  }

  /** The comparator `(a, b) => a.localeCompare(b)` as a may-precede relation. */
  function OrderOf<T(==)>(less: (T, T) -> bool): (T, T) -> bool
  {
    (a: T, b: T) => a == b || less(a, b)
  }

  lemma StrictOrderTotal<T(!new)>(less: (T, T) -> bool)
    requires StrictTotalOrder(less)
    ensures TotalPreorder(OrderOf(less))
  {
  }

  predicate SortedBy<T>(s: seq<T>, le: (T, T) -> bool)
  {
    forall i, j :: 0 <= i < j < |s| ==> le(s[i], s[j])
  }

  /** `x` placed after the leading items that may come before it. */
  function Insert<T(!new)>(x: T, s: seq<T>, le: (T, T) -> bool): (r: seq<T>)
    ensures |r| == |s| + 1
    ensures forall y :: y in r <==> y == x || y in s
    ensures multiset(r) == multiset(s) + multiset{x}
  {
    if s == [] then [x]
    else if le(s[0], x) then
      assert s == [s[0]] + s[1..];
      [s[0]] + Insert(x, s[1..], le)
    else [x] + s
  }

  lemma {:induction false} InsertSorted<T(!new)>(x: T, s: seq<T>, le: (T, T) -> bool)
    requires TotalPreorder(le) && SortedBy(s, le)
    ensures SortedBy(Insert(x, s, le), le)
  {
    if s != [] {
      if le(s[0], x) {
        var tail := s[1..];
        assert SortedBy(tail, le) by {
          forall i, j | 0 <= i < j < |tail| ensures le(tail[i], tail[j]) {
            assert tail[i] == s[i + 1] && tail[j] == s[j + 1];
          }
        }
        InsertSorted(x, tail, le);
        var rest := Insert(x, tail, le);
        forall y | y in rest ensures le(s[0], y) {
          if y != x {
            var k :| 0 <= k < |tail| && tail[k] == y;
            assert s[k + 1] == y;
          }
        }
      } else {
        assert le(x, s[0]);
        var r := [x] + s;
        forall i, j | 0 <= i < j < |r| ensures le(r[i], r[j]) {
          if i == 0 && j > 1 {
            assert le(s[0], s[j - 1]);
          }
        }
      }
    }
  }

  /** Where `Insert` puts `x`: the number of leading items that may precede it. */
  function InsertPoint<T(!new)>(x: T, s: seq<T>, le: (T, T) -> bool): (j: nat)
    ensures j <= |s|
  {
    if s == [] then 0
    else if le(s[0], x) then 1 + InsertPoint(x, s[1..], le)
    else 0
  }

  /** `Insert` puts `x` between the first `InsertPoint` items and the rest. */
  lemma {:induction false} InsertAt<T(!new)>(x: T, s: seq<T>, le: (T, T) -> bool)
    ensures var j := InsertPoint(x, s, le); Insert(x, s, le) == s[..j] + [x] + s[j..]
  {
    if s != [] && le(s[0], x) {
      var tail := s[1..];
      InsertAt(x, tail, le);
      var k := InsertPoint(x, tail, le);
      assert InsertPoint(x, s, le) == k + 1;
      assert Insert(x, s, le) == [s[0]] + Insert(x, tail, le);
      assert s == [s[0]] + tail;
      SplitAfterHead(s[0], tail, k, x);
    } else {
      SplitAtFront(s, x);
    }
  }

  /** Splitting after the head and `k` more items is splitting the tail after `k` items. */
  lemma SplitAfterHead<T>(a: T, tail: seq<T>, k: nat, x: T)
    requires k <= |tail|
    ensures ([a] + tail)[..k + 1] + [x] + ([a] + tail)[k + 1..] == [a] + (tail[..k] + [x] + tail[k..])
  {
    var s := [a] + tail;
    assert s[..k + 1] == [a] + tail[..k];
    assert s[k + 1..] == tail[k..];
  }

  lemma SplitAtFront<T>(s: seq<T>, x: T)
    ensures s[..0] + [x] + s[0..] == [x] + s
  {
    assert s[..0] == [] && s[0..] == s;
  }

  /** Every item before the insertion point may precede `x`; the one at it may not. */
  lemma {:induction false} InsertPointBounds<T(!new)>(x: T, s: seq<T>, le: (T, T) -> bool)
    ensures forall i :: 0 <= i < InsertPoint(x, s, le) ==> le(s[i], x)
    ensures InsertPoint(x, s, le) < |s| ==> !le(s[InsertPoint(x, s, le)], x)
  {
    if s != [] && le(s[0], x) {
      var tail := s[1..];
      InsertPointBounds(x, tail, le);
      forall i | 0 < i < InsertPoint(x, s, le) ensures le(s[i], x) {
        assert s[i] == tail[i - 1];
      }
    }
  }

  /** In a sorted list, every item from the insertion point on may not precede the inserted item. */
  lemma SortedAfterPoint<T(!new)>(x: T, s: seq<T>, le: (T, T) -> bool, j: nat)
    requires TotalPreorder(le) && SortedBy(s, le)
    requires j < |s| && !le(s[j], x)
    ensures forall i :: j <= i < |s| ==> !le(s[i], x)
  {
    forall i | j <= i < |s| ensures !le(s[i], x) {
      if i > j {
        assert le(s[j], s[i]);
      }
    }
  }

  /** The items inserted one by one, in order: the sorted arrangement, equal items kept in input order. */
  function InsertionSort<T(!new)>(s: seq<T>, le: (T, T) -> bool): (r: seq<T>)
    ensures |r| == |s|
    ensures forall y :: y in r <==> y in s
    ensures multiset(r) == multiset(s)
    decreases |s|
  {
    if s == [] then []
    else
      var front := s[..|s| - 1];
      assert s == front + [s[|s| - 1]];
      Insert(s[|s| - 1], InsertionSort(front, le), le)
  }

  /** The result is in order. */
  lemma {:induction false} InsertionSortSorted<T(!new)>(s: seq<T>, le: (T, T) -> bool)
    requires TotalPreorder(le)
    ensures SortedBy(InsertionSort(s, le), le)
    decreases |s|
  {
    if s != [] {
      var front := s[..|s| - 1];
      InsertionSortSorted(front, le);
      InsertSorted(s[|s| - 1], InsertionSort(front, le), le);
    }
  }

  /** An item that every item may precede goes at the end. */
  lemma {:induction false} InsertAfterAll<T(!new)>(x: T, s: seq<T>, le: (T, T) -> bool)
    requires forall i :: 0 <= i < |s| ==> le(s[i], x)
    ensures Insert(x, s, le) == s + [x]
  {
    if s != [] {
      var tail := s[1..];
      forall i | 0 <= i < |tail| ensures le(tail[i], x) {
        assert tail[i] == s[i + 1];
      }
      InsertAfterAll(x, tail, le);
      assert le(s[0], x);
      assert [s[0]] + (tail + [x]) == s + [x];
    }
  }

  /** Sorting a list already in order leaves it as it is: the sort is stable. */
  lemma {:induction false} InsertionSortOfSorted<T(!new)>(s: seq<T>, le: (T, T) -> bool)
    requires SortedBy(s, le)
    ensures InsertionSort(s, le) == s
    decreases |s|
  {
    if s != [] {
      var front := s[..|s| - 1];
      assert SortedBy(front, le);
      InsertionSortOfSorted(front, le);
      InsertAfterAll(s[|s| - 1], front, le);
      assert front + [s[|s| - 1]] == s;
    }
  }

  /** Appending to a sorted list and sorting again inserts the new item after every item not after it. */
  lemma AppendThenSort<T(!new)>(s: seq<T>, x: T, le: (T, T) -> bool)
    requires SortedBy(s, le)
    ensures InsertionSort(s + [x], le) == Insert(x, s, le)
  {
    assert (s + [x])[..|s|] == s;
    InsertionSortOfSorted(s, le);
  }

  /** Inserting an item not yet present keeps the list free of repeats. */
  lemma {:induction false} InsertDistinct<T(!new)>(x: T, s: seq<T>, le: (T, T) -> bool)
    requires NoDuplicates(s) && x !in s
    ensures NoDuplicates(Insert(x, s, le))
  {
    if s != [] && le(s[0], x) {
      var tail := s[1..];
      assert NoDuplicates(tail) by {
        forall i, j | 0 <= i < j < |tail| ensures tail[i] != tail[j] {
          assert tail[i] == s[i + 1] && tail[j] == s[j + 1];
        }
      }
      InsertDistinct(x, tail, le);
      assert s[0] !in tail by {
        forall k | 0 <= k < |tail| ensures tail[k] != s[0] {
          assert tail[k] == s[k + 1];
        }
      }
      ConsDistinct(s[0], Insert(x, tail, le));
    } else if s != [] {
      ConsDistinct(x, s);
    }
  }

  lemma ConsDistinct<T>(x: T, s: seq<T>)
    requires NoDuplicates(s) && x !in s
    ensures NoDuplicates([x] + s)
  {
    var r := [x] + s;
    forall i, j | 0 <= i < j < |r| ensures r[i] != r[j] {
      assert r[j] == s[j - 1];
      if i > 0 {
        assert r[i] == s[i - 1];
      }
    }
  }

  /** Sorting a list without repeats gives a list without repeats. */
  lemma {:induction false} InsertionSortDistinct<T(!new)>(s: seq<T>, le: (T, T) -> bool)
    requires NoDuplicates(s)
    ensures NoDuplicates(InsertionSort(s, le))
    decreases |s|
  {
    if s != [] {
      var front := s[..|s| - 1];
      assert NoDuplicates(front) by {
        forall i, j | 0 <= i < j < |front| ensures front[i] != front[j] {
          assert front[i] == s[i] && front[j] == s[j];
        }
      }
      InsertionSortDistinct(front, le);
      assert s[|s| - 1] !in front by {
        forall k | 0 <= k < |front| ensures front[k] != s[|s| - 1] {
          assert front[k] == s[k];
        }
      }
      InsertDistinct(s[|s| - 1], InsertionSort(front, le), le);
    }
  }
}
