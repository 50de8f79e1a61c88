/** Finite sums over sets, independent of the order they are taken in. */
module Sums {

  ghost function Sum<K(!new)>(ks: set<K>, f: K -> nat): nat
  {
    if ks == {} then 0 else
      var k :| k in ks;
      f(k) + Sum(ks - {k}, f)
  }

  /** Any element may be split off first. */
  lemma {:induction false} SumSplit<K(!new)>(ks: set<K>, k: K, f: K -> nat)
    requires k in ks
    ensures Sum(ks, f) == f(k) + Sum(ks - {k}, f)
  {
    var j :| j in ks && Sum(ks, f) == f(j) + Sum(ks - {j}, f);
    if j != k {
      SumSplit(ks - {j}, k, f);
      SumSplit(ks - {k}, j, f);
      assert ks - {j} - {k} == ks - {k} - {j};
    }
  }

  lemma {:induction false} SumSame<K(!new)>(ks: set<K>, f: K -> nat, g: K -> nat)
    requires forall k :: k in ks ==> f(k) == g(k)
    ensures Sum(ks, f) == Sum(ks, g)
  {
    if ks != {} {
      var k :| k in ks;
      SumSplit(ks, k, f);
      SumSplit(ks, k, g);
      SumSame(ks - {k}, f, g);
    }
  }

  /** An absent entry reads as zero. */
  function Get<K>(m: map<K, nat>, k: K): nat
  {
    if k in m then m[k] else 0
  }

  ghost function Entry<K(!new)>(m: map<K, nat>): K -> nat
  {
    k => Get(m, k)
  }

  /** The total of all entries of a map. */
  ghost function Total<K(!new)>(m: map<K, nat>): nat
  {
    Sum(m.Keys, Entry(m))
  }

  /** Bumping one entry, present or not, adds one to the total. */
  lemma TotalBump<K(!new)>(m: map<K, nat>, k: K)
    ensures Total(m[k := Get(m, k) + 1]) == Total(m) + 1
  {
    var t := m[k := Get(m, k) + 1];
    SumSplit(t.Keys, k, Entry(t));
    SumSame(t.Keys - {k}, Entry(t), Entry(m));
    if k in m {
      SumSplit(m.Keys, k, Entry(m));
      assert t.Keys - {k} == m.Keys - {k};
    } else {
      assert t.Keys - {k} == m.Keys;
    }
  }
}
