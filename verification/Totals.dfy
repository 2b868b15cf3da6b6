/** Totals over finite maps. */
module Totals {

  /** The sum of all the values of a map. */
  ghost function Total<K>(weights: map<K, nat>): nat {
    if weights == map[] then 0
    else
      var k :| k in weights;
      Total(weights - {k}) + weights[k]
  }

  /** Any key can be taken out first. */
  lemma {:induction false} TotalWithout<K>(weights: map<K, nat>, k: K)
    requires k in weights
    ensures Total(weights) == Total(weights - {k}) + weights[k]
    decreases |weights|
  {
    var j :| j in weights && Total(weights) == Total(weights - {j}) + weights[j];
    if j != k {
      TotalWithout(weights - {j}, k);
      TotalWithout(weights - {k}, j);
      assert weights - {j} - {k} == weights - {k} - {j};
    }
  }

  /** Setting one value replaces its share of the total. */
  lemma TotalUpdated<K>(weights: map<K, nat>, k: K, v: nat)
    ensures Total(weights[k := v]) == Total(weights) + v - if k in weights then weights[k] else 0
  {
    var after := weights[k := v];
    TotalWithout(after, k);
    assert after - {k} == weights - {k};
    if k in weights {
      TotalWithout(weights, k);
    } else {
      assert weights - {k} == weights;
    }
  }
}
