/** Sums over the values of a finite map, and how one entry enters them. */
module Sums {

  ghost function Total<K>(m: map<K, nat>): nat
    decreases |m|
  {
    if m == map[] then 0
    else
      var k :| k in m;
      RemoveShrinks(m, k);
      m[k] + Total(m - {k})
  }

  lemma RemoveShrinks<K, V>(m: map<K, V>, k: K)
    requires k in m
    ensures |m - {k}| == |m| - 1
  {
    assert (m - {k}).Keys == m.Keys - {k};
  }

  lemma {:induction false} TotalRemove<K>(m: map<K, nat>, k: K)
    requires k in m
    ensures Total(m) == m[k] + Total(m - {k})
    decreases |m|
  {
    var first :| first in m && Total(m) == m[first] + Total(m - {first});
    if first != k {
      RemoveShrinks(m, first);
      RemoveShrinks(m, k);
      TotalRemove(m - {first}, k);
      TotalRemove(m - {k}, first);
      assert m - {first} - {k} == m - {k} - {first};
    }
  }

  lemma TotalUpdate<K>(m: map<K, nat>, k: K, v: nat)
    ensures Total(m[k := v]) == Total(m) - (if k in m then m[k] else 0) + v
  {
    TotalRemove(m[k := v], k);
    assert m[k := v] - {k} == m - {k};
    if k in m {
      TotalRemove(m, k);
    } else {
      assert m - {k} == m;
    }
  }

  lemma TotalOfZeros<K>(m: map<K, nat>)
    requires forall k :: k in m ==> m[k] == 0
    ensures Total(m) == 0
    decreases |m|
  {
    if m != map[] {
      var k :| k in m;
      RemoveShrinks(m, k);
      TotalRemove(m, k);
      TotalOfZeros(m - {k});
    }
  }

  lemma OneMore(n: nat, amount: nat)
    ensures (n + 1) * amount == n * amount + amount
  {
  }

  /** Adding the same amount at some keys. */
  lemma {:induction false} TotalRaise<K>(m: map<K, nat>, raised: map<K, nat>, keys: set<K>, amount: nat)
    requires raised.Keys == m.Keys && keys <= m.Keys
    requires forall k :: k in m ==> raised[k] == m[k] + (if k in keys then amount else 0)
    ensures Total(raised) == Total(m) + |keys| * amount
    decreases |keys|
  {
    hide Total;
    if keys == {} {
      assert raised == m;
    } else {
      var k :| k in keys;
      var rest := keys - {k};
      TotalUpdate(raised, k, m[k]);
      TotalRaise(m, raised[k := m[k]], rest, amount);
      OneMore(|rest|, amount);
      assert |keys| == |rest| + 1;
    }
  }

  lemma {:induction false} TotalConstant<K>(m: map<K, nat>, amount: nat)
    requires forall k :: k in m ==> m[k] == amount
    ensures Total(m) == |m| * amount
    decreases |m|
  {
    if m != map[] {
      var k :| k in m;
      RemoveShrinks(m, k);
      TotalRemove(m, k);
      TotalConstant(m - {k}, amount);
      OneMore(|m - {k}|, amount);
    }
  }

  /** Adding fresh keys. */
  lemma {:induction false} TotalExtend<K>(m: map<K, nat>, extra: map<K, nat>)
    requires forall k :: k in extra ==> k !in m
    ensures Total(m + extra) == Total(m) + Total(extra)
    decreases |extra|
  {
    if extra == map[] {
      assert m + extra == m;
    } else {
      var k :| k in extra;
      ExtendByOne(m, extra, k);
    }
  }

  lemma ExtendByOne<K>(m: map<K, nat>, extra: map<K, nat>, k: K)
    requires k in extra && forall k :: k in extra ==> k !in m
    ensures Total(m + extra) == Total(m) + Total(extra)
    decreases |extra|, 0
  {
    hide Total;
    var rest := extra - {k};
    RemoveShrinks(extra, k);
    TotalExtend(m, rest);
    TotalUpdate(m + rest, k, extra[k]);
    assert (m + rest)[k := extra[k]] == m + extra;
    TotalRemove(extra, k);
  }
}
