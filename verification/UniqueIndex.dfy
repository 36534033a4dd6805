// A table of rows under a unique index, and a statement that gives rows new keys one by one:
// the index is checked at every row, not when the statement ends.
module UniqueIndex {
  import opened Wrappers

  ghost predicate Holds<K, V>(rows: map<K, V>, k: K, value: V) {
    k in rows && rows[k] == value
  }

  // One row: the unique index refuses a key that a row has at that moment.
  function UpdateOne<K(!new), V(!new)>(rows: map<K, V>, k: K, k': K): Option<map<K, V>>
    requires k in rows
  {
    if k' == k then Some(rows) else if k' in rows then None else Some((rows - {k})[k' := rows[k]])
  }

  // One row after the other.
  function InOrder<K(!new), V(!new)>(rows: map<K, V>, m: map<K, K>, order: seq<K>): Option<map<K, V>> {
    if order == [] then Some(rows)
    else
      match InOrder(rows, m, order[..|order| - 1])
      case None => None
      case Some(now) =>
        var k := order[|order| - 1];
        if k in now && k in m then UpdateOne(now, k, m[k]) else Some(now)
  }

  // No row comes twice, and none is left out unless the statement has failed.
  predicate Visits<K(!new)>(m: map<K, K>, order: seq<K>, all: bool) {
    && (forall i, j :: 0 <= i < j < |order| ==> order[i] != order[j])
    && (forall k :: k in order ==> k in m)
    && (all ==> forall k :: k in m ==> k in order)
  }

  // The rows come in whatever order the database chooses; a failure undoes the statement.
  ghost predicate Updated<K(!new), V(!new)>(rows: map<K, V>, m: map<K, K>, rows': map<K, V>, ok: bool) {
    && (exists order :: Visits(m, order, ok) && InOrder(rows, m, order) == if ok then Some(rows') else None)
    && (!ok ==> rows' == rows)
  }

  // Two rows end up under one key.
  ghost predicate Collides<K(!new)>(m: map<K, K>) {
    exists j, k :: j in m && k in m && j != k && m[j] == m[k]
  }

  // A row is given a key that another row has or is given.
  ghost predicate Blocked<K(!new)>(m: map<K, K>) {
    exists j, k :: j in m && k in m && j != k && (m[j] == k || m[j] == m[k])
  }

  // The rows are the old ones under their new keys.
  ghost predicate Rekeyed<K(!new), V(!new)>(rows: map<K, V>, rows': map<K, V>, m: map<K, K>) {
    && (forall k :: k in rows ==> k in m && Holds(rows', m[k], rows[k]))
    && (forall j :: j in rows' ==> exists k :: k in rows && k in m && m[k] == j)
  }

  // Where a row is when those of `done` have been updated.
  function Place<K(!new)>(m: map<K, K>, done: set<K>, k: K): K {
    if k in done && k in m then m[k] else k
  }

  predicate Apart<K(!new)>(m: map<K, K>, done: set<K>, j: K, k: K) {
    j != k ==> Place(m, done, j) != Place(m, done, k)
  }

  ghost predicate HeldAt<K(!new), V(!new)>(rows: map<K, V>, now: map<K, V>, m: map<K, K>, done: set<K>, k: K)
    requires k in rows
  {
    Holds(now, Place(m, done, k), rows[k])
  }

  ghost predicate IsPlace<K(!new), V(!new)>(rows: map<K, V>, m: map<K, K>, done: set<K>, x: K) {
    exists k :: k in rows && Place(m, done, k) == x
  }

  ghost predicate Placed<K(!new), V(!new)>(rows: map<K, V>, now: map<K, V>, m: map<K, K>, done: set<K>) {
    && (forall j, k {:trigger Apart(m, done, j, k)} :: j in rows && k in rows ==> Apart(m, done, j, k))
    && (forall k {:trigger HeldAt(rows, now, m, done, k)} :: k in rows ==> HeldAt(rows, now, m, done, k))
    && (forall x {:trigger IsPlace(rows, m, done, x)} :: x in now ==> IsPlace(rows, m, done, x))
  }

  lemma PlaceNext<K(!new), V(!new)>(rows: map<K, V>, now: map<K, V>, m: map<K, K>, done: set<K>, k: K)
    requires m.Keys == rows.Keys && Placed(rows, now, m, done) && k in rows && k !in done
    requires m[k] == k || m[k] !in now
    ensures k in now && UpdateOne(now, k, m[k]).Some? && Placed(rows, UpdateOne(now, k, m[k]).value, m, done + {k})
  {
    assert HeldAt(rows, now, m, done, k);
    var now', done' := UpdateOne(now, k, m[k]).value, done + {k};
    forall j | j in rows
      ensures HeldAt(rows, now', m, done', j) && Apart(m, done', j, k) && Apart(m, done', k, j)
    {
      assert HeldAt(rows, now, m, done, j) && Apart(m, done, j, k);
    }
    forall i, j | i in rows && j in rows
      ensures Apart(m, done', i, j)
    {
      assert Apart(m, done, i, j) && Apart(m, done', i, k) && Apart(m, done', k, j);
    }
    forall x | x in now'
      ensures IsPlace(rows, m, done', x)
    {
      if x == m[k] {
        assert Place(m, done', k) == x;
      } else {
        assert IsPlace(rows, m, done, x);
        var j :| j in rows && Place(m, done, j) == x;
        assert Place(m, done', j) == x;
      }
    }
  }

  // Without a row in the way no order fails; what an order has done is determined.
  lemma {:induction false} OrderPlaces<K(!new), V(!new)>(rows: map<K, V>, m: map<K, K>, order: seq<K>)
    requires m.Keys == rows.Keys && Visits(m, order, false)
    ensures !Blocked(m) ==> InOrder(rows, m, order).Some?
    ensures InOrder(rows, m, order).Some? ==> Placed(rows, InOrder(rows, m, order).value, m, set k | k in order)
    decreases |order|
  {
    if order == [] {
      NothingDone(rows, m);
    } else {
      var front, k := order[..|order| - 1], order[|order| - 1];
      var done := set x | x in front;
      LastVisit(m, order);
      OrderPlaces(rows, m, front);
      if InOrder(rows, m, front).Some? {
        var now := InOrder(rows, m, front).value;
        assert HeldAt(rows, now, m, done, k);
        if m[k] == k || m[k] !in now {
          PlaceNext(rows, now, m, done, k);
        } else {
          InTheWay(rows, now, m, done, k);
        }
      }
    }
  }

  lemma NothingDone<K(!new), V(!new)>(rows: map<K, V>, m: map<K, K>)
    ensures Placed(rows, rows, m, {})
  {
    forall k | k in rows
      ensures HeldAt(rows, rows, m, {}, k) && IsPlace(rows, m, {}, k)
    {
      assert Place(m, {}, k) == k;
    }
    forall j, k | j in rows && k in rows
      ensures Apart(m, {}, j, k)
    {
    }
  }

  lemma LastVisit<K(!new)>(m: map<K, K>, order: seq<K>)
    requires order != [] && Visits(m, order, false)
    ensures
      var front, k := order[..|order| - 1], order[|order| - 1];
      Visits(m, front, false) && k in m && k !in front && (set x | x in order) == (set x | x in front) + {k}
  {
    var front, k := order[..|order| - 1], order[|order| - 1];
    assert order == front + [k];
  }

  lemma InTheWay<K(!new), V(!new)>(rows: map<K, V>, now: map<K, V>, m: map<K, K>, done: set<K>, k: K)
    requires m.Keys == rows.Keys && Placed(rows, now, m, done) && k in rows && k !in done && m[k] != k && m[k] in now
    ensures Blocked(m)
  {
    assert IsPlace(rows, m, done, m[k]);
    var j :| j in rows && Place(m, done, j) == m[k];
    assert j != k;
  }

  // A statement that goes through has renamed every row and lost none.
  lemma UpdatedRekeys<K(!new), V(!new)>(rows: map<K, V>, m: map<K, K>, rows': map<K, V>)
    requires m.Keys == rows.Keys && Updated(rows, m, rows', true)
    ensures Rekeyed(rows, rows', m) && !Collides(m) && |rows'| == |rows|
  {
    var order :| Visits(m, order, true) && InOrder(rows, m, order) == Some(rows');
    OrderPlaces(rows, m, order);
    var done := set k | k in order;
    forall k | k in rows
      ensures Place(m, done, k) == m[k] && Holds(rows', m[k], rows[k])
    {
      assert HeldAt(rows, rows', m, done, k);
    }
    forall j | j in rows'
      ensures exists k :: k in rows && k in m && m[k] == j
    {
      assert IsPlace(rows, m, done, j);
    }
    forall j, k | j in m && k in m && j != k
      ensures m[j] != m[k]
    {
      assert Apart(m, done, j, k);
    }
    assert rows'.Keys == m.Values;
    SameCount(rows.Keys, rows'.Keys, m);
  }

  // A working statement can fail exactly if some row is in another's way.
  lemma MayFailIff<K(!new), V(!new)>(rows: map<K, V>, m: map<K, K>)
    requires m.Keys == rows.Keys
    ensures Updated(rows, m, rows, false) <==> Blocked(m)
  {
    if Updated(rows, m, rows, false) {
      var order :| Visits(m, order, false) && InOrder(rows, m, order) == None;
      OrderPlaces(rows, m, order);
    }
    if Blocked(m) {
      var j, k :| j in m && k in m && j != k && (m[j] == k || m[j] == m[k]);
      FirstMoves(rows, m, j);
      FirstMoves(rows, m, k);
      if m[j] != j && m[j] in rows {
        assert Visits(m, [j], false);
      } else if m[k] != k && m[k] in rows {
        assert Visits(m, [k], false);
      } else {
        assert [j, k][..1] == [j];
        assert InOrder(rows, m, [j, k]) == None && Visits(m, [j, k], false);
      }
    }
  }

  lemma FirstMoves<K(!new), V(!new)>(rows: map<K, V>, m: map<K, K>, j: K)
    requires j in rows && j in m
    ensures InOrder(rows, m, [j]) == UpdateOne(rows, j, m[j])
  {
    assert [j][..0] == [];
  }

  lemma OneMoreVisit<K(!new)>(m: map<K, K>, order: seq<K>, k: K)
    requires Visits(m, order, false) && k in m && k !in order
    ensures Visits(m, order + [k], false) && (order + [k])[..|order|] == order
  {
  }

  lemma Unvisited<K(!new), V(!new)>(rows: map<K, V>, m: map<K, K>, order: seq<K>, k: K)
    requires m.Keys == rows.Keys && Visits(m, order, false) && k in rows && k !in order && InOrder(rows, m, order).Some?
    ensures k in InOrder(rows, m, order).value
  {
    OrderPlaces(rows, m, order);
    var done := set x | x in order;
    assert HeldAt(rows, InOrder(rows, m, order).value, m, done, k);
  }

  lemma ChainOrders<K(!new), V(!new)>(rows: map<K, V>, m: map<K, K>, j: K, k: K)
    requires rows.Keys == m.Keys == {j, k} && j != k && m[j] == k && m[k] != k && m[k] != j
    ensures !Collides(m) && Updated(rows, m, rows, false) && exists rows' :: Updated(rows, m, rows', true)
  {
    FirstMoves(rows, m, j);
    assert Visits(m, [j], false);
    FirstMoves(rows, m, k);
    assert [k, j][..1] == [k] && Visits(m, [k, j], true);
    assert InOrder(rows, m, [k, j]).Some?;
    assert Updated(rows, m, InOrder(rows, m, [k, j]).value, true);
  }

  lemma {:induction false} SameCount<K(!new)>(a: set<K>, b: set<K>, name: map<K, K>)
    requires name.Keys == a && name.Values == b
    requires forall j, k :: j in a && k in a && name[j] == name[k] ==> j == k
    ensures |a| == |b|
    decreases |a|
  {
    if a == {} {
      assert b == {};
    } else {
      var k :| k in a;
      var less := name - {k};
      assert less.Values == b - {name[k]} by {
        forall l | l in b - {name[k]}
          ensures l in less.Values
        {
          var j :| j in name && name[j] == l;
          assert j in less && less[j] == l;
        }
      }
      SameCount(a - {k}, b - {name[k]}, less);
    }
  }
}
