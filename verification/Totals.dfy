/** Totals over the values of a finite map. */
module Totals {

  ghost function Total<K>(m: map<K, nat>): nat
    decreases |m|
  {
    if m == map[] then 0
    else
      var k :| k in m;
      m[k] + Total(m - {k})
  }

  /** Any key may be taken out first. */
  lemma {:induction false} TotalWithout<K>(m: map<K, nat>, k: K)
    requires k in m
    ensures Total(m) == m[k] + Total(m - {k})
    decreases |m|
  {
    var first :| first in m && Total(m) == m[first] + Total(m - {first});
    if first != k {
      TotalWithout(m - {first}, k);
      TotalWithout(m - {k}, first);
      assert m - {first} - {k} == m - {k} - {first};
    }
  }

  lemma TotalWith<K>(m: map<K, nat>, k: K, v: nat)
    ensures Total(m[k := v]) == Total(m - {k}) + v
  {
    TotalWithout(m[k := v], k);
    assert m[k := v] - {k} == m - {k};
  }

  ghost predicate Submap<K, V>(m: map<K, V>, n: map<K, V>) {
    forall k :: k in m ==> k in n && m[k] == n[k]
  }

  lemma SubmapEqual<K, V>(m: map<K, V>, n: map<K, V>)
    requires Submap(m, n) && Submap(n, m)
    ensures m == n
  {
  }

  lemma {:induction false} SubmapCount<K, V>(m: map<K, V>, n: map<K, V>)
    requires Submap(m, n)
    ensures |m| <= |n|
  {
    assert m.Keys <= n.Keys;
    SubsetCount(m.Keys, n.Keys);
  }

  lemma {:induction false} SubsetCount<T>(a: set<T>, b: set<T>)
    requires a <= b
    ensures |a| <= |b|
    ensures |a| == |b| ==> a == b
  {
    var rest := b - a;
    assert b == a + rest;
  }

  lemma {:induction false} SubmapTotal<K>(m: map<K, nat>, n: map<K, nat>)
    requires Submap(m, n)
    ensures Total(m) <= Total(n)
    decreases |m|
  {
    if m != map[] {
      var k :| k in m;
      TotalWithout(m, k);
      TotalWithout(n, k);
      SubmapTotal(m - {k}, n - {k});
    }
  }
}
