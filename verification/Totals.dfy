/** The sum of a size over the values of a map: what a cache's byte count must equal. */
module Totals {

  ghost function TotalOver<K(!new), V>(keys: set<K>, m: map<K, V>, size: V -> nat): nat
    requires keys <= m.Keys
  {
    if keys == {} then 0
    else
      var k :| k in keys;
      size(m[k]) + TotalOver(keys - {k}, m, size)
  }

  ghost function Total<K(!new), V>(m: map<K, V>, size: V -> nat): nat {
    TotalOver(m.Keys, m, size)
  }

  /** Any key can be counted first. */
  lemma {:induction false} TotalTake<K(!new), V>(keys: set<K>, m: map<K, V>, size: V -> nat, k: K)
    requires keys <= m.Keys && k in keys
    ensures TotalOver(keys, m, size) == size(m[k]) + TotalOver(keys - {k}, m, size)
    decreases |keys|
  {
    var first :| first in keys && TotalOver(keys, m, size) == size(m[first]) + TotalOver(keys - {first}, m, size);
    if first != k {
      TotalTake(keys - {first}, m, size, k);
      TotalTake(keys - {k}, m, size, first);
      assert keys - {first} - {k} == keys - {k} - {first};
    }
  }

  lemma {:induction false} TotalExt<K(!new), V>(keys: set<K>, m: map<K, V>, m': map<K, V>, size: V -> nat)
    requires keys <= m.Keys && keys <= m'.Keys && forall k | k in keys :: m[k] == m'[k]
    ensures TotalOver(keys, m, size) == TotalOver(keys, m', size)
    decreases |keys|
  {
    if keys != {} {
      var k :| k in keys && TotalOver(keys, m, size) == size(m[k]) + TotalOver(keys - {k}, m, size);
      TotalTake(keys, m', size, k);
      TotalExt(keys - {k}, m, m', size);
    }
  }

  /** Putting a value in adds its size, less that of the value it replaces. */
  lemma TotalPut<K(!new), V>(m: map<K, V>, size: V -> nat, k: K, v: V)
    ensures Total(m[k := v], size) == size(v) + Total(m, size) - (if k in m then size(m[k]) else 0)
    ensures k in m ==> size(m[k]) <= Total(m, size)
  {
    var m' := m[k := v];
    TotalTake(m'.Keys, m', size, k);
    assert m'.Keys - {k} == m.Keys - {k};
    TotalExt(m.Keys - {k}, m, m', size);
    if k in m {
      TotalTake(m.Keys, m, size, k);
    } else {
      assert m.Keys - {k} == m.Keys;
    }
  }
}
