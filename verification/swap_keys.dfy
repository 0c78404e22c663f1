/**
  `swap_keys_and_values` (pynocle/utils.py:151-158): builds
  `dict(zip(d.values(), d.keys()))` and raises `KeyError` when it has fewer
  entries than `d`, which is exactly when two keys of `d` share a value.

  The argument is given by its iteration order: a sequence of pairs with
  distinct keys. `d.values()` and `d.keys()` follow that same order.
 */
module SwapKeys {
  import opened Wrappers
  import opened Dicts

  /** The `KeyError`, carrying `d.values()` as its message does. */
  datatype SwapError<V> = DuplicateValues(values: seq<V>)

  /** `d.values()`. */
  function Values<K, V>(d: seq<(K, V)>): (vs: seq<V>)
    ensures |vs| == |d| && forall i :: 0 <= i < |d| ==> vs[i] == d[i].1
  {
    seq(|d|, i requires 0 <= i < |d| => d[i].1)
  }

  /** `zip(d.values(), d.keys())`: each pair turned around. */
  function Swapped<K, V>(d: seq<(K, V)>): (r: seq<(V, K)>)
    ensures |r| == |d| && forall i :: 0 <= i < |d| ==> r[i] == (d[i].1, d[i].0)
  {
    seq(|d|, i requires 0 <= i < |d| => (d[i].1, d[i].0))
  }

  /** Some two distinct keys share a value. */
  predicate SharedValue<K, V(==)>(d: seq<(K, V)>) {
    exists i, j :: 0 <= i < j < |d| && d[i].1 == d[j].1
  }

  /** `r` is the inverse of `m`: its keys are the values of `m`, it sends each
      value of `m` back to the key that has it, and `m` sends each key of `r`
      back. */
  predicate IsInverse<K, V>(r: map<V, K>, m: map<K, V>) {
    && r.Keys == m.Values
    && (forall k :: k in m ==> r[m[k]] == k)
    && (forall v :: v in r ==> r[v] in m && m[r[v]] == v)
  }

  function SwapKeysAndValues<K(==), V(==)>(d: seq<(K, V)>): (r: Result<map<V, K>, SwapError<V>>)
    requires DistinctKeys(d)
    ensures r.Failure? <==> SharedValue(d)
    ensures r.Failure? ==> r.error == DuplicateValues(Values(d))
    ensures r.Success? ==> |r.value| == |d|
    ensures r.Success? ==> forall i :: 0 <= i < |d| ==> d[i].1 in r.value && r.value[d[i].1] == d[i].0
  {
    var result := FromPairs(Swapped(d));
    KeysCard(Swapped(d));
    assert DistinctKeys(Swapped(d)) <==> !SharedValue(d) by {
      var s := Swapped(d);
      if SharedValue(d) {
        var i, j :| 0 <= i < j < |d| && d[i].1 == d[j].1;
        assert s[i].0 == s[j].0;
      }
    }
    if |d| != |result| then
      Failure(DuplicateValues(Values(d)))
    else
      FromDistinctPairs(Swapped(d));
      Success(result)
  }

  /** On success the result is the inverse of the dictionary `d`. */
  lemma SwapIsInverse<K, V>(d: seq<(K, V)>)
    requires DistinctKeys(d) && SwapKeysAndValues(d).Success?
    ensures IsInverse(SwapKeysAndValues(d).value, FromPairs(d))
  {
    var r := SwapKeysAndValues(d).value;
    var m := FromPairs(d);
    FromDistinctPairs(d);
    assert r.Keys == m.Values by {
      assert r.Keys == Keys(Swapped(d));
      forall v | v in m.Values ensures v in r.Keys {
        var k :| k in m && m[k] == v;
        var i :| 0 <= i < |d| && d[i].0 == k;
      }
    }
    forall v | v in r ensures r[v] in m && m[r[v]] == v {
      var i :| 0 <= i < |d| && Swapped(d)[i].0 == v;
    }
    forall k | k in m ensures r[m[k]] == k {
      var i :| 0 <= i < |d| && d[i].0 == k;
    }
  }

  lemma InverseSymmetric<K, V>(r: map<V, K>, m: map<K, V>)
    requires IsInverse(r, m)
    ensures IsInverse(m, r)
  {
    forall k | k in m ensures k in r.Values {
      assert r[m[k]] == k;
    }
  }

  /** A map has at most one inverse. */
  lemma InverseUnique<K, V>(a: map<K, V>, b: map<K, V>, r: map<V, K>)
    requires IsInverse(a, r) && IsInverse(b, r)
    ensures a == b
  {
    forall k | k in a ensures b[k] == a[k] {
      var v :| v in r && r[v] == k;
    }
  }

  /** A listing of an inverse map repeats no value. */
  lemma InverseListingDistinct<K, V>(listing: seq<(V, K)>, r: map<V, K>, m: map<K, V>)
    requires IsInverse(r, m) && DistinctKeys(listing) && FromPairs(listing) == r
    ensures !SharedValue(listing)
  {
    FromDistinctPairs(listing);
    forall i, j | 0 <= i < j < |listing| ensures listing[i].1 != listing[j].1 {
      assert m[r[listing[i].0]] == listing[i].0 && m[r[listing[j].0]] == listing[j].0;
    }
  }

  /** Whatever order the result is iterated in, swapping it again succeeds and
      gives back the dictionary `d`. */
  lemma SwapTwice<K, V>(d: seq<(K, V)>, listing: seq<(V, K)>)
    requires DistinctKeys(d) && SwapKeysAndValues(d).Success?
    requires DistinctKeys(listing) && FromPairs(listing) == SwapKeysAndValues(d).value
    ensures SwapKeysAndValues(listing) == Success(FromPairs(d))
  {
    var r := SwapKeysAndValues(d).value;
    SwapIsInverse(d);
    InverseListingDistinct(listing, r, FromPairs(d));
    SwapIsInverse(listing);
    InverseSymmetric(r, FromPairs(d));
    InverseUnique(SwapKeysAndValues(listing).value, FromPairs(d), r);
  }

  /** `d` maps 1 to "a" and 2 to "a": swapping fails and reports the values. */
  lemma SharedValueFails()
    ensures SwapKeysAndValues([(1, 'a'), (2, 'a')]) == Failure(DuplicateValues(['a', 'a']))
  {
    var d := [(1, 'a'), (2, 'a')];
    assert d[0].1 == d[1].1;
    assert Values(d) == ['a', 'a'];
  }
}
