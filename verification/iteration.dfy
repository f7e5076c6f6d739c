/** Go's `for k := range m`: the keys of a map, each exactly once, in an
    order the runtime chooses. Operations whose result depends on that
    order take it as a parameter `order` that `Enumerates` the map. */
module Iteration {

  predicate Distinct<K(==)>(s: seq<K>) {
    forall i, j :: 0 <= i < j < |s| ==> s[i] != s[j]
  }

  /** `order` visits every key of `m` exactly once. */
  predicate Enumerates<K(==), V>(m: map<K, V>, order: seq<K>) {
    && Distinct(order)
    && (forall i :: 0 <= i < |order| ==> order[i] in m)
    && (forall k :: k in m ==> k in order)
  }

  /** A sequence without repetitions has as many elements as its set. */
  lemma {:induction false} DistinctCard<K>(s: seq<K>)
    requires Distinct(s)
    ensures |set x | x in s| == |s|
  {
    if |s| > 0 {
      DistinctCard(s[1..]);
      assert (set x | x in s) == {s[0]} + (set x | x in s[1..]);
      assert s[0] !in s[1..];
    }
  }

  /** An enumeration is as long as the map is large. */
  lemma EnumerationLength<K, V>(m: map<K, V>, order: seq<K>)
    requires Enumerates(m, order)
    ensures |order| == |m|
  {
    DistinctCard(order);
    assert (set x | x in order) == m.Keys;
  }

  /** Dropping the first visited key leaves an enumeration of the rest. */
  lemma EnumerationTail<K, V>(m: map<K, V>, order: seq<K>)
    requires Enumerates(m, order) && |order| > 0
    ensures Enumerates(m - {order[0]}, order[1..])
  {
    forall k | k in m - {order[0]} ensures k in order[1..] {
      var i :| 0 <= i < |order| && order[i] == k;
      assert i != 0;
      assert order[1..][i - 1] == k;
    }
  }
}
