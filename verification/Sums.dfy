// The sum of the values of a finite map, independent of the order of its keys.
module Sums {

  ghost function Sum<K(!new)>(m: map<K, int>): int
    decreases |m|
  {
    if m == map[] then 0
    else
      var k :| k in m;
      m[k] + Sum(m - {k})
  }

  // The sum may start from any key.
  lemma {:induction false} SumFrom<K(!new)>(m: map<K, int>, k: K)
    requires k in m
    ensures Sum(m) == m[k] + Sum(m - {k})
    decreases |m|
  {
    var j :| j in m && Sum(m) == m[j] + Sum(m - {j});
    if j != k {
      SumFrom(m - {j}, k);
      SumFrom(m - {k}, j);
      assert (m - {j}) - {k} == (m - {k}) - {j};
    }
  }

  lemma SumUpdate<K(!new)>(m: map<K, int>, k: K, v: int)
    ensures Sum(m[k := v]) == Sum(m) + v - (if k in m then m[k] else 0)
  {
    SumFrom(m[k := v], k);
    assert m[k := v] - {k} == m - {k};
    if k in m {
      SumFrom(m, k);
    } else {
      assert m - {k} == m;
    }
  }

  lemma {:induction false} SumSplit<K(!new)>(m: map<K, int>, a: map<K, int>, b: map<K, int>)
    requires forall k :: k in m <==> k in a || k in b
    requires forall k :: k in a ==> k !in b
    requires forall k :: k in a ==> m[k] == a[k]
    requires forall k :: k in b ==> m[k] == b[k]
    ensures Sum(m) == Sum(a) + Sum(b)
    decreases |b|
  {
    if b == map[] {
      assert m == a;
    } else {
      var k :| k in b;
      SumFrom(b, k);
      SumFrom(m, k);
      SumSplit(m - {k}, a, b - {k});
    }
  }

  lemma {:induction false} SumZero<K(!new)>(m: map<K, int>)
    requires forall k :: k in m ==> m[k] == 0
    ensures Sum(m) == 0
    decreases |m|
  {
    if m != map[] {
      var k :| k in m;
      SumFrom(m, k);
      SumZero(m - {k});
    }
  }

  lemma {:induction false} SumNonNegative<K(!new)>(m: map<K, int>)
    requires forall k :: k in m ==> m[k] >= 0
    ensures Sum(m) >= 0
    ensures forall k :: k in m ==> m[k] <= Sum(m)
    decreases |m|
  {
    if m != map[] {
      var k :| k in m;
      SumFrom(m, k);
      SumNonNegative(m - {k});
      assert forall j :: j in m && j != k ==> j in m - {k} && (m - {k})[j] == m[j];
    }
  }

  // Renaming the keys one to one keeps the sum.
  lemma {:induction false} SumRenamed<K(!new), L(!new)>(m: map<K, int>, n: map<L, int>, name: map<K, L>)
    requires name.Keys == m.Keys && name.Values == n.Keys
    requires forall k, l :: k in name && l in name && name[k] == name[l] ==> k == l
    requires forall k :: k in m ==> n[name[k]] == m[k]
    ensures Sum(m) == Sum(n)
    decreases |m|
  {
    if m == map[] {
      assert forall l :: l in n.Keys ==> l in name.Values;
      assert n == map[];
    } else {
      var k :| k in m;
      SumFrom(m, k);
      SumFrom(n, name[k]);
      var name' := name - {k};
      assert name'.Values == (n - {name[k]}).Keys by {
        forall l | l in (n - {name[k]}).Keys
          ensures l in name'.Values
        {
          var j :| j in name && name[j] == l;
          assert j in name' && name'[j] == l;
        }
      }
      SumRenamed(m - {k}, n - {name[k]}, name');
    }
  }
}
