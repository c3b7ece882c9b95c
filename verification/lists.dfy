/**
 * `[...new Set(items)]`: the distinct items of a list, each at its first
 * occurrence; and the filter-and-map loops that keep the items a
 * conversion accepts.
 */
module Lists {
  import opened Wrappers

  predicate NoDuplicates<T(==)>(s: seq<T>)
  {
    forall i, j :: 0 <= i < j < |s| ==> s[i] != s[j]
  }

  /** The list without repeats: an item is kept where it first occurs. */
  function Dedupe<T(==,!new)>(s: seq<T>): (r: seq<T>)
    ensures NoDuplicates(r)
    ensures forall x :: x in r <==> x in s
    ensures |r| <= |s|
    decreases |s|
  {
    if s == [] then []
    else
      var front := Dedupe(s[..|s| - 1]);
      var x := s[|s| - 1];
      if x in s[..|s| - 1] then front
      else
        assert x !in front;
        AppendNoDuplicates(front, x);
        front + [x]
  }

  lemma AppendNoDuplicates<T>(s: seq<T>, x: T)
    requires NoDuplicates(s) && x !in s
    ensures NoDuplicates(s + [x])
  {
    var r := s + [x];
    forall i, j | 0 <= i < j < |r| ensures r[i] != r[j] {
      if j == |s| {
        assert r[i] == s[i];
      } else {
        assert r[i] == s[i] && r[j] == s[j];
      }
    }
  }

  /** A list without repeats is its own deduplication. */
  lemma {:induction false} DedupeOfDistinct<T(!new)>(s: seq<T>)
    requires NoDuplicates(s)
    ensures Dedupe(s) == s
    decreases |s|
  {
    if s != [] {
      var front := s[..|s| - 1];
      assert NoDuplicates(front) by {
        forall i, j | 0 <= i < j < |front| ensures front[i] != front[j] {
          assert front[i] == s[i] && front[j] == s[j];
        }
      }
      DedupeOfDistinct(front);
      assert s[|s| - 1] !in front by {
        forall k | 0 <= k < |front| ensures front[k] != s[|s| - 1] {
          assert front[k] == s[k];
        }
      }
      assert front + [s[|s| - 1]] == s;
    }
  }

  /** Items added at the end never disturb what the front deduplicates to. */
  lemma {:induction false} DedupePrefix<T(!new)>(a: seq<T>, b: seq<T>)
    ensures |Dedupe(a)| <= |Dedupe(a + b)| && Dedupe(a + b)[..|Dedupe(a)|] == Dedupe(a)
    decreases |b|
  {
    if b != [] {
      var b' := b[..|b| - 1];
      DedupePrefix(a, b');
      assert (a + b)[..|a + b| - 1] == a + b';
    } else {
      assert a + b == a;
    }
  }

  /** Every item satisfies `p`. */
  predicate AllItems<T>(s: seq<T>, p: T -> bool)
  {
    forall i :: 0 <= i < |s| ==> p(s[i])
  }

  /** Some item satisfies `p`. */
  predicate AnyItem<T>(s: seq<T>, p: T -> bool)
  {
    exists i :: 0 <= i < |s| && p(s[i])
  }

  /** Some item satisfies `p` exactly when one of the front does or the last does. */
  lemma AnyItemSnoc<T>(s: seq<T>, p: T -> bool)
    requires s != []
    ensures AnyItem(s, p) <==> AnyItem(s[..|s| - 1], p) || p(s[|s| - 1])
  {
    var front := s[..|s| - 1];
    if AnyItem(s, p) {
      var i :| 0 <= i < |s| && p(s[i]);
      if i < |front| {
        assert front[i] == s[i];
      }
    }
    if AnyItem(front, p) {
      var i :| 0 <= i < |front| && p(front[i]);
      assert s[i] == front[i];
    }
  }

  lemma AppendAllItems<T>(a: seq<T>, b: seq<T>, p: T -> bool)
    requires AllItems(a, p) && AllItems(b, p)
    ensures AllItems(a + b, p)
  {
    forall i | 0 <= i < |a + b| ensures p((a + b)[i]) {
      if i >= |a| {
        assert (a + b)[i] == b[i - |a|];
      }
    }
  }

  /** Deduplication keeps only items of the list, so it keeps any property all of them have. */
  lemma DedupeAllItems<T(!new)>(s: seq<T>, p: T -> bool)
    requires AllItems(s, p)
    ensures AllItems(Dedupe(s), p)
  {
    var r := Dedupe(s);
    forall i | 0 <= i < |r| ensures p(r[i]) {
      assert r[i] in s;
    }
  }

  /** The accepted conversions of a list, in order: a loop that skips the items `f` rejects. */
  function Collect<T, U>(xs: seq<T>, f: T -> Option<U>): (r: seq<U>)
    ensures |r| <= |xs|
  {
    if xs == [] then []
    else (match f(xs[0]) case Some(y) => [y] case None => []) + Collect(xs[1..], f)
  }

  /** A one-item list collects what its item converts to. */
  lemma CollectOne<T, U>(x: T, f: T -> Option<U>)
    ensures Collect([x], f) == (match f(x) case Some(y) => [y] case None => [])
  {
    assert [x][1..] == [];
  }

  /** An item is collected exactly when some item of the list converts to it. */
  lemma {:induction false} CollectMembers<T, U>(xs: seq<T>, f: T -> Option<U>, y: U)
    ensures y in Collect(xs, f) <==> exists i :: 0 <= i < |xs| && f(xs[i]) == Some(y)
    decreases |xs|
  {
    if xs != [] {
      var tail := xs[1..];
      CollectMembers(tail, f, y);
      if y in Collect(xs, f) && f(xs[0]) != Some(y) {
        assert y in Collect(tail, f);
        var i :| 0 <= i < |tail| && f(tail[i]) == Some(y);
        assert xs[i + 1] == tail[i];
      }
      if exists i :: 0 <= i < |xs| && f(xs[i]) == Some(y) {
        var i :| 0 <= i < |xs| && f(xs[i]) == Some(y);
        if i > 0 {
          assert tail[i - 1] == xs[i];
        }
      }
    }
  }

  /** Collecting keeps any property every accepted conversion has. */
  lemma {:induction false} CollectAllItems<T, U>(xs: seq<T>, f: T -> Option<U>, p: U -> bool)
    requires forall i :: 0 <= i < |xs| ==> f(xs[i]).Some? ==> p(f(xs[i]).value)
    ensures AllItems(Collect(xs, f), p)
    decreases |xs|
  {
    if xs != [] {
      var tail := xs[1..];
      assert forall i :: 0 <= i < |tail| ==> tail[i] == xs[i + 1];
      CollectAllItems(tail, f, p);
      var head := match f(xs[0]) case Some(y) => [y] case None => [];
      assert AllItems(head, p);
      AppendAllItems(head, Collect(tail, f), p);
    }
  }

  /** Items that each convert to the matching item of `ys` collect to `ys`. */
  lemma {:induction false} CollectConverted<T, U>(xs: seq<T>, f: T -> Option<U>, ys: seq<U>)
    requires |xs| == |ys|
    requires forall i :: 0 <= i < |xs| ==> f(xs[i]) == Some(ys[i])
    ensures Collect(xs, f) == ys
    decreases |xs|
  {
    if xs != [] {
      assert forall i :: 0 <= i < |xs| - 1 ==> xs[1..][i] == xs[i + 1] && ys[1..][i] == ys[i + 1];
      CollectConverted(xs[1..], f, ys[1..]);
      assert ys == [ys[0]] + ys[1..];
    }
  }

  /** Deduplicating twice is deduplicating once. */
  lemma DedupeIdempotent<T(!new)>(s: seq<T>)
    ensures Dedupe(Dedupe(s)) == Dedupe(s)
  {
    DedupeOfDistinct(Dedupe(s));
  }

  /** A prefix one longer is the prefix and the next item. */
  lemma PrefixStep<T>(s: seq<T>, i: nat)
    requires i < |s|
    ensures s[..i + 1] == s[..i] + [s[i]]
  {
  }

  /** A list is its front, the item at `i`, and its back. */
  lemma SplitAt<T>(s: seq<T>, i: nat)
    requires i < |s|
    ensures s == s[..i] + ([s[i]] + s[i + 1..])
  {
  }

  /** The items of a list with `x` put in at `j`. */
  lemma InsertedItems<T>(s: seq<T>, j: nat, x: T)
    requires j <= |s|
    ensures var r := s[..j] + [x] + s[j..];
      |r| == |s| + 1 && forall k :: 0 <= k < |r| ==> r[k] == (if k < j then s[k] else if k == j then x else s[k - 1])
  {
  }

  /** The items of a list with the item at `i` taken out. */
  lemma RemovedItems<T>(s: seq<T>, i: nat)
    requires i < |s|
    ensures var r := s[..i] + s[i + 1..];
      |r| == |s| - 1 && forall k :: 0 <= k < |r| ==> r[k] == (if k < i then s[k] else s[k + 1])
  {
  }

  /** Taking out an item just put in at `j` gives the list back. */
  lemma RemoveInserted<T>(s: seq<T>, j: nat, x: T)
    requires j <= |s|
    ensures var r := s[..j] + [x] + s[j..]; r[j] == x && r[..j] + r[j + 1..] == s
  {
    var r := s[..j] + [x] + s[j..];
    assert r[..j] == s[..j];
    assert r[j + 1..] == s[j..];
  }

  // ---------------------------------------------------------------------------
  // Keyed assignment loops
  // ---------------------------------------------------------------------------

  /**
   * The map after assigning, in order, the key and value `f` gives each item
   * (an item it gives nothing is skipped): a key keeps its value in `m`
   * unless some item assigns it, and then the last assigning item wins.
   */
  function Assign<T, V>(m: map<string, V>, xs: seq<T>, f: T -> Option<(string, V)>): map<string, V>
    decreases |xs|
  {
    if xs == [] then m
    else
      var front := Assign(m, xs[..|xs| - 1], f);
      match f(xs[|xs| - 1])
      case Some(kv) => front[kv.0 := kv.1]
      case None => front
  }

  /** Item `i` assigns `k`. */
  predicate Assigns<T, V>(xs: seq<T>, f: T -> Option<(string, V)>, i: int, k: string)
  {
    0 <= i < |xs| && f(xs[i]).Some? && f(xs[i]).value.0 == k
  }

  /** A key is set after the loop exactly when it was set before or some item assigns it. */
  lemma {:induction false} AssignKeys<T, V>(m: map<string, V>, xs: seq<T>, f: T -> Option<(string, V)>, k: string)
    ensures k in Assign(m, xs, f) <==> k in m || exists i :: Assigns(xs, f, i, k)
    decreases |xs|
  {
    if xs != [] {
      var front := xs[..|xs| - 1];
      AssignKeys(m, front, f, k);
      var last := f(xs[|xs| - 1]);
      if last.Some? {
        assert Assign(m, xs, f) == Assign(m, front, f)[last.value.0 := last.value.1];
        if last.value.0 == k {
          assert Assigns(xs, f, |xs| - 1, k);
        }
      } else {
        assert Assign(m, xs, f) == Assign(m, front, f);
      }
      if exists i :: Assigns(front, f, i, k) {
        var i :| Assigns(front, f, i, k);
        assert Assigns(xs, f, i, k);
      }
      if exists i :: Assigns(xs, f, i, k) {
        var i :| Assigns(xs, f, i, k);
        if i < |front| {
          assert Assigns(front, f, i, k);
        }
      }
    }
  }

  /** Every key set after the loop was set before it or is assigned by some item. */
  lemma AssignKeysFrom<T, V>(m: map<string, V>, xs: seq<T>, f: T -> Option<(string, V)>)
    ensures forall k :: k in Assign(m, xs, f) ==> k in m || exists i :: Assigns(xs, f, i, k)
  {
    forall k | k in Assign(m, xs, f) ensures k in m || exists i :: Assigns(xs, f, i, k) {
      AssignKeys(m, xs, f, k);
    }
  }

  /** The last item that assigns a key decides its value. */
  lemma {:induction false} AssignLast<T, V>(m: map<string, V>, xs: seq<T>, f: T -> Option<(string, V)>, i: nat)
    requires i < |xs| && f(xs[i]).Some?
    requires forall j :: i < j < |xs| ==> !Assigns(xs, f, j, f(xs[i]).value.0)
    ensures var kv := f(xs[i]).value; kv.0 in Assign(m, xs, f) && Assign(m, xs, f)[kv.0] == kv.1
    decreases |xs|
  {
    var front := xs[..|xs| - 1];
    if i < |front| {
      forall j | i < j < |front| ensures !Assigns(front, f, j, f(front[i]).value.0) {
        assert !Assigns(xs, f, j, f(xs[i]).value.0);
      }
      assert !Assigns(xs, f, |xs| - 1, f(xs[i]).value.0);
      AssignLast(m, front, f, i);
    }
  }

  /** A key no item assigns keeps its value from before the loop. */
  lemma {:induction false} AssignUntouched<T, V>(m: map<string, V>, xs: seq<T>, f: T -> Option<(string, V)>, k: string)
    requires forall i :: 0 <= i < |xs| ==> !Assigns(xs, f, i, k)
    ensures (k in Assign(m, xs, f) <==> k in m) && (k in m ==> Assign(m, xs, f)[k] == m[k])
    decreases |xs|
  {
    if xs != [] {
      var front := xs[..|xs| - 1];
      forall i | 0 <= i < |front| ensures !Assigns(front, f, i, k) {
        assert !Assigns(xs, f, i, k);
      }
      assert !Assigns(xs, f, |xs| - 1, k);
      AssignUntouched(m, front, f, k);
    }
  }

  /** A property every value set before the loop and every assigned value has holds of every value after it. */
  lemma {:induction false} AssignValues<T, V>(m: map<string, V>, xs: seq<T>, f: T -> Option<(string, V)>, p: (string, V) -> bool)
    requires forall k :: k in m ==> p(k, m[k])
    requires forall i :: 0 <= i < |xs| && f(xs[i]).Some? ==> p(f(xs[i]).value.0, f(xs[i]).value.1)
    ensures forall k :: k in Assign(m, xs, f) ==> p(k, Assign(m, xs, f)[k])
    decreases |xs|
  {
    if xs != [] {
      var front := xs[..|xs| - 1];
      forall i | 0 <= i < |front| && f(front[i]).Some? ensures p(f(front[i]).value.0, f(front[i]).value.1) {
        assert front[i] == xs[i];
      }
      AssignValues(m, front, f, p);
    }
  }
}
