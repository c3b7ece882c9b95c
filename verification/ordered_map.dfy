/**
 * JavaScript `Map` (and plain-object dictionaries) as the sequence of their
 * entries in insertion order: keys are unique, `set` on a present key
 * replaces the value in place, and `set` on a new key appends.
 */
module OrderedMaps {
  import opened Wrappers

  type Entries<K, V> = seq<(K, V)>

  function Keys<K, V>(m: Entries<K, V>): (ks: seq<K>)
    ensures |ks| == |m|
    ensures forall i :: 0 <= i < |m| ==> ks[i] == m[i].0
  {
    seq(|m|, i requires 0 <= i < |m| => m[i].0)
  }

  /** `[...map.values()]`. */
  function Values<K, V>(m: Entries<K, V>): (vs: seq<V>)
    ensures |vs| == |m|
    ensures forall i :: 0 <= i < |m| ==> vs[i] == m[i].1
  {
    seq(|m|, i requires 0 <= i < |m| => m[i].1)
  }

  /** No key occurs twice. */
  predicate Distinct<T(==)>(s: seq<T>)
  {
    forall i, j :: 0 <= i < j < |s| ==> s[i] != s[j]
  }

  predicate Valid<K(==), V>(m: Entries<K, V>)
  {
    Distinct(Keys(m))
  }

  predicate Has<K(==), V>(m: Entries<K, V>, k: K)
  {
    exists i :: 0 <= i < |m| && m[i].0 == k
  }

  /** A list of entries holds the keys of all but its last entry, and the last entry's key. */
  lemma HasSnoc<K, V>(m: Entries<K, V>)
    requires |m| > 0
    ensures forall k :: Has(m, k) <==> Has(m[..|m| - 1], k) || k == m[|m| - 1].0
  {
    var front := m[..|m| - 1];
    forall k | Has(m, k) && k != m[|m| - 1].0 ensures Has(front, k) {
      var i :| 0 <= i < |m| && m[i].0 == k;
      assert front[i].0 == k;
    }
    forall k | Has(front, k) ensures Has(m, k) {
      var i :| 0 <= i < |front| && front[i].0 == k;
      assert m[i].0 == k;
    }
  }

  /** Position of key `k`. */
  function IndexOfKey<K(==), V>(m: Entries<K, V>, k: K): (i: nat)
    requires Has(m, k)
    ensures i < |m| && m[i].0 == k
    ensures forall j :: 0 <= j < i ==> m[j].0 != k
  {
    if m[0].0 == k then 0
    else
      assert Has(m[1..], k) by {
        var j :| 0 <= j < |m| && m[j].0 == k;
        assert m[1..][j - 1].0 == k;
      }
      1 + IndexOfKey(m[1..], k)
  }

  /** `map.get(k)`: None for an absent key. */
  function Get<K(==), V>(m: Entries<K, V>, k: K): (r: Option<V>)
    ensures r.None? <==> !Has(m, k)
    ensures r.Some? ==> r.value == m[IndexOfKey(m, k)].1
  {
    if Has(m, k) then Some(m[IndexOfKey(m, k)].1) else None
  }

  /** `map.set(k, v)`: in place for a present key, appended for a new one. */
  function Set<K(==,!new), V>(m: Entries<K, V>, k: K, v: V): (r: Entries<K, V>)
    requires Valid(m)
    ensures Valid(r)
    ensures Get(r, k) == Some(v)
    ensures forall k' :: k' != k ==> Get(r, k') == Get(m, k')
    ensures forall k' :: Has(r, k') <==> Has(m, k') || k' == k
    ensures Has(m, k) ==> Keys(r) == Keys(m)
    ensures !Has(m, k) ==> Keys(r) == Keys(m) + [k] && r == m + [(k, v)]
    ensures Has(m, k) ==> r == m[IndexOfKey(m, k) := (k, v)]
  {
    if Has(m, k) then
      var i := IndexOfKey(m, k);
      var r := m[i := (k, v)];
      assert Keys(r) == Keys(m);
      assert IndexOfKey(r, k) == i;
      forall k' | k' != k && Has(m, k')
        ensures Get(r, k') == Get(m, k')
      {
        UniqueIndex(m, IndexOfKey(m, k'), k');
        UniqueIndex(r, IndexOfKey(r, k'), k');
      }
      r
    else
      var r := m + [(k, v)];
      assert Keys(r) == Keys(m) + [k];
      assert Valid(r) by {
        forall a, b | 0 <= a < b < |r|
          ensures Keys(r)[a] != Keys(r)[b]
        {
          if b == |m| {
            assert Keys(r)[a] == m[a].0;
          }
        }
      }
      UniqueIndex(r, |m|, k);
      forall k' | k' != k && Has(m, k')
        ensures Get(r, k') == Get(m, k')
      {
        UniqueIndex(r, IndexOfKey(m, k'), k');
      }
      r
  }

  /** Every value satisfies `p`. */
  predicate AllValues<K, V>(m: Entries<K, V>, p: V -> bool)
  {
    forall i :: 0 <= i < |m| ==> p(m[i].1)
  }

  lemma GetAllValues<K, V>(m: Entries<K, V>, k: K, p: V -> bool)
    requires AllValues(m, p) && Has(m, k)
    ensures p(Get(m, k).value)
  {
    var i := IndexOfKey(m, k);
  }

  /** Storing a value that satisfies `p` keeps every value satisfying it. */
  lemma SetAllValues<K(!new), V>(m: Entries<K, V>, k: K, v: V, p: V -> bool)
    requires Valid(m) && AllValues(m, p) && p(v)
    ensures AllValues(Set(m, k, v), p)
  {
    if Has(m, k) {
      assert Set(m, k, v) == m[IndexOfKey(m, k) := (k, v)];
    } else {
      assert Set(m, k, v) == m + [(k, v)];
    }
  }

  /** In a valid map the entry holding `k` is the one at `IndexOfKey`. */
  lemma UniqueIndex<K, V>(m: Entries<K, V>, i: nat, k: K)
    requires Valid(m) && i < |m| && m[i].0 == k
    ensures Has(m, k) && IndexOfKey(m, k) == i
  {
    var j := IndexOfKey(m, k);
    assert Keys(m)[j] == k;
  }

  /** `map.delete(k)`. */
  function Delete<K(==,!new), V>(m: Entries<K, V>, k: K): (r: Entries<K, V>)
    requires Valid(m)
    ensures Valid(r)
    ensures !Has(r, k)
    ensures forall k' :: k' != k ==> Get(r, k') == Get(m, k')
  {
    if !Has(m, k) then m
    else
      var i := IndexOfKey(m, k);
      var r := m[..i] + m[i + 1..];
      assert forall a :: 0 <= a < |r| ==> r[a] == (if a < i then m[a] else m[a + 1]);
      assert Valid(r) by {
        forall a, b | 0 <= a < b < |r|
          ensures Keys(r)[a] != Keys(r)[b]
        {
          var a' := if a < i then a else a + 1;
          var b' := if b < i then b else b + 1;
          assert Keys(m)[a'] != Keys(m)[b'];
        }
      }
      forall k' | k' != k
        ensures Get(r, k') == Get(m, k')
      {
        if Has(m, k') {
          var j := IndexOfKey(m, k');
          var a := if j < i then j else j - 1;
          assert r[a] == m[j];
          UniqueIndex(r, a, k');
        }
      }
      r
  }

  /** The map holding exactly the given pairs, later pairs overriding earlier ones: `new Map(pairs)`. */
  function FromPairs<K(==,!new), V>(pairs: seq<(K, V)>): (r: Entries<K, V>)
    ensures Valid(r)
    ensures forall k :: Has(r, k) <==> exists i :: 0 <= i < |pairs| && pairs[i].0 == k
    decreases |pairs|
  {
    if pairs == [] then []
    else
      var front := FromPairs(pairs[..|pairs| - 1]);
      var last := pairs[|pairs| - 1];
      var r := Set(front, last.0, last.1);
      forall k ensures Has(r, k) <==> exists i :: 0 <= i < |pairs| && pairs[i].0 == k
      {
        if Has(r, k) && k != last.0 {
          var i :| 0 <= i < |pairs| - 1 && pairs[..|pairs| - 1][i].0 == k;
          assert pairs[i].0 == k;
        }
        if (exists i :: 0 <= i < |pairs| && pairs[i].0 == k) && k != last.0 {
          var i :| 0 <= i < |pairs| && pairs[i].0 == k;
          assert pairs[..|pairs| - 1][i].0 == k;
        }
      }
      r
  }
}
