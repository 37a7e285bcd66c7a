/**
 * Collecting an iterator of key/value pairs into a `HashMap`: each pair is
 * inserted in turn, so a key that repeats keeps the value of its last pair.
 */
module Collect {

  /** No pair after position `i` has the same key as pair `i`. */
  predicate LastOf<K(==), V>(ps: seq<(K, V)>, i: nat)
    requires i < |ps|
  {
    forall j :: i < j < |ps| ==> ps[j].0 != ps[i].0
  }

  /**
   * The insertions, in order, into an empty map. Each pair adds at most one
   * key, and the final pair's value always stands; `ToMapSpec` gives the
   * full characterisation.
   */
  function ToMap<K(==), V>(ps: seq<(K, V)>): (m: map<K, V>)
    ensures |m| <= |ps|
    ensures |ps| != 0 ==> ps[|ps| - 1].0 in m && m[ps[|ps| - 1].0] == ps[|ps| - 1].1
  {
    if |ps| == 0 then map[]
    else
      var last := ps[|ps| - 1];
      ToMap(ps[..|ps| - 1])[last.0 := last.1]
  }

  /** The keys are exactly the keys of the pairs. */
  lemma {:induction false} ToMapKeys<K, V>(ps: seq<(K, V)>, k: K)
    ensures k in ToMap(ps) <==> exists i :: 0 <= i < |ps| && ps[i].0 == k
  {
    if |ps| != 0 {
      var init := ps[..|ps| - 1];
      ToMapKeys(init, k);
      if k in ToMap(init) {
        var i :| 0 <= i < |init| && init[i].0 == k;
        assert ps[i].0 == k;
      }
      if exists i :: 0 <= i < |ps| && ps[i].0 == k {
        var i :| 0 <= i < |ps| && ps[i].0 == k;
        if i < |init| {
          assert init[i].0 == k;
        }
      }
    }
  }

  /** A key holds the value of the last pair that carries it. */
  lemma {:induction false} ToMapLastWins<K, V>(ps: seq<(K, V)>, i: nat)
    requires i < |ps| && LastOf(ps, i)
    ensures ps[i].0 in ToMap(ps) && ToMap(ps)[ps[i].0] == ps[i].1
  {
    var init := ps[..|ps| - 1];
    if i < |init| {
      assert LastOf(init, i);
      ToMapLastWins(init, i);
    }
  }

  /**
   * `m` is what collecting `ps` must give: its keys are exactly the pairs'
   * keys, and a key holds the value of the last pair that carries it.
   */
  ghost predicate Collected<K(!new), V>(m: map<K, V>, ps: seq<(K, V)>) {
    && (forall k :: k in m <==> exists i :: 0 <= i < |ps| && ps[i].0 == k)
    && (forall i :: 0 <= i < |ps| && LastOf(ps, i) ==> ps[i].0 in m && m[ps[i].0] == ps[i].1)
  }

  /** Both properties at once, for every key and every pair. */
  lemma ToMapSpec<K(!new), V>(ps: seq<(K, V)>)
    ensures Collected(ToMap(ps), ps)
  {
    forall k {
      ToMapKeys(ps, k);
    }
    forall i | 0 <= i < |ps| && LastOf(ps, i) {
      ToMapLastWins(ps, i);
    }
  }

  /** The value a key is mapped to is the value of some pair carrying that key. */
  lemma {:induction false} ToMapValueFromPair<K, V>(ps: seq<(K, V)>, k: K)
    requires k in ToMap(ps)
    ensures exists i :: 0 <= i < |ps| && ps[i] == (k, ToMap(ps)[k])
  {
    var init, last := ps[..|ps| - 1], ps[|ps| - 1];
    if k != last.0 {
      ToMapValueFromPair(init, k);
      var i :| 0 <= i < |init| && init[i] == (k, ToMap(init)[k]);
      assert ps[i] == (k, ToMap(ps)[k]);
    } else {
      assert ps[|ps| - 1] == (k, ToMap(ps)[k]);
    }
  }
}
