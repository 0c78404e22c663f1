/**
  Python dictionaries built from a sequence of key/value pairs, as
  `dict(pairs)` builds them: pairs are taken in order and a later pair
  overwrites an earlier one with the same key. A dictionary's own iteration
  order is a sequence of pairs with distinct keys.
 */
module Dicts {

  /** The keys of a sequence of pairs. */
  function Keys<K(==), V>(ps: seq<(K, V)>): set<K> {
    set i | 0 <= i < |ps| :: ps[i].0
  }

  /** No key occurs twice: what iterating over a dictionary yields. */
  predicate DistinctKeys<K(==), V>(ps: seq<(K, V)>) {
    forall i, j :: 0 <= i < j < |ps| ==> ps[i].0 != ps[j].0
  }

  /** Pair `i` is the last one with its key. */
  predicate LastWithKey<K(==), V>(ps: seq<(K, V)>, i: int)
    requires 0 <= i < |ps|
  {
    forall j :: i < j < |ps| ==> ps[j].0 != ps[i].0
  }

  /** `dict(pairs)`. */
  function FromPairs<K(==), V>(ps: seq<(K, V)>): (m: map<K, V>)
    ensures m.Keys == Keys(ps)
  {
    if ps == [] then map[]
    else
      var init := ps[..|ps| - 1];
      var last := ps[|ps| - 1];
      assert Keys(ps) == Keys(init) + {last.0} by {
        assert forall i :: 0 <= i < |init| ==> init[i] == ps[i];
      }
      FromPairs(init)[last.0 := last.1]
  }

  /** The last pair with a given key decides its value. */
  lemma {:induction false} FromPairsLastWins<K, V>(ps: seq<(K, V)>, i: int)
    requires 0 <= i < |ps| && LastWithKey(ps, i)
    ensures FromPairs(ps)[ps[i].0] == ps[i].1
  {
    var init := ps[..|ps| - 1];
    if i < |ps| - 1 {
      assert init[i] == ps[i];
      assert LastWithKey(init, i) by {
        forall j | i < j < |init| ensures init[j].0 != init[i].0 {
          assert init[j] == ps[j];
        }
      }
      FromPairsLastWins(init, i);
    }
  }

  /** A sequence of pairs has no more distinct keys than pairs, and exactly as
      many when no key repeats. */
  lemma {:induction false} KeysCard<K, V>(ps: seq<(K, V)>)
    ensures |Keys(ps)| <= |ps|
    ensures |Keys(ps)| == |ps| <==> DistinctKeys(ps)
  {
    if ps == [] {
      assert Keys(ps) == {};
    } else {
      var rest := ps[1..];
      assert Keys(ps) == {ps[0].0} + Keys(rest) by {
        assert forall i :: 1 <= i < |ps| ==> ps[i] == rest[i - 1];
        assert forall i :: 0 <= i < |rest| ==> rest[i] == ps[i + 1];
      }
      KeysCard(rest);
      if ps[0].0 in Keys(rest) {
        var i :| 0 <= i < |rest| && rest[i].0 == ps[0].0;
        assert ps[i + 1].0 == ps[0].0;
      } else {
        assert DistinctKeys(ps) <==> DistinctKeys(rest) by {
          if DistinctKeys(rest) {
            forall i, j | 0 <= i < j < |ps| ensures ps[i].0 != ps[j].0 {
              assert ps[j] == rest[j - 1];
              if i > 0 {
                assert ps[i] == rest[i - 1];
              }
            }
          }
          if DistinctKeys(ps) {
            forall i, j | 0 <= i < j < |rest| ensures rest[i].0 != rest[j].0 {
              assert rest[i] == ps[i + 1] && rest[j] == ps[j + 1];
            }
          }
        }
      }
    }
  }

  /** With distinct keys every pair is the last with its key, so the
      dictionary holds every pair. */
  lemma FromDistinctPairs<K, V>(ps: seq<(K, V)>)
    requires DistinctKeys(ps)
    ensures forall i :: 0 <= i < |ps| ==> ps[i].0 in FromPairs(ps) && FromPairs(ps)[ps[i].0] == ps[i].1
  {
    forall i | 0 <= i < |ps| ensures ps[i].0 in FromPairs(ps) && FromPairs(ps)[ps[i].0] == ps[i].1 {
      assert ps[i].0 in Keys(ps);
      FromPairsLastWins(ps, i);
    }
  }
}
