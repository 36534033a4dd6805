// Names in the trashbin: the suffix that keeps same-second deletions apart, and the name a
// restored entry gets when its old one is taken.
module TrashNames {
  import opened Wrappers
  import opened StoragePaths
  import opened Decimals

  const RESTORE_COLLISION_CAP: nat := 99

  datatype TrashEntry = TrashEntry(user: string, basename: string, suffix: string, location: Path,
                                   deletedAt: nat, isDir: bool, fileid: Option<nat>)

  type TrashRows = map<nat, TrashEntry>

  // ---------- suffixes ----------

  function Base(now: nat): string {
    "d" + Decimal(now)
  }

  function Nth(base: string, k: nat): string {
    if k <= 1 then base else base + "_" + Decimal(k)
  }

  // The rows the probe counts: same user and basename, suffix LIKE 'd<secs>%'.
  function Bucket(rows: TrashRows, user: string, basename: string, base: string): set<nat> {
    set id | id in rows && rows[id].user == user && rows[id].basename == basename && base <= rows[id].suffix
  }

  function UniqueSuffix(rows: TrashRows, user: string, basename: string, now: nat): string {
    Nth(Base(now), |Bucket(rows, user, basename, Base(now))| + 1)
  }

  lemma Underscored(s: nat, k: nat)
    ensures '_' in Nth(Base(s), k) <==> k > 1
  {
    if k > 1 {
      assert Nth(Base(s), k)[|Base(s)|] == '_';
    }
  }

  lemma NthInjective(s: nat, j: nat, t: nat, k: nat)
    requires 1 <= j && 1 <= k && Nth(Base(s), j) == Nth(Base(t), k)
    ensures s == t && j == k
  {
    var a, b := "d" + Decimal(s), "d" + Decimal(t);
    assert '_' !in a && '_' !in b;
    Underscored(s, j);
    Underscored(t, k);
    if j > 1 && k > 1 {
      assert Nth(Base(s), j) == a + ['_'] + Decimal(j) && Nth(Base(t), k) == b + ['_'] + Decimal(k);
      SameHead(a, b, '_', Decimal(j), Decimal(k));
      DecimalInjective(j, k);
    }
    assert a[1..] == Decimal(s) && b[1..] == Decimal(t);
    DecimalInjective(s, t);
  }

  // Every suffix is one of the first n of its second, n the count the probe would see.
  // This holds as long as rows are only added.
  ghost predicate Numbered(rows: TrashRows) {
    forall id :: id in rows ==> NumberedRow(rows, rows[id])
  }

  ghost predicate NumberedRow(rows: TrashRows, e: TrashEntry) {
    exists k :: 1 <= k <= |Bucket(rows, e.user, e.basename, Base(e.deletedAt))| && e.suffix == Nth(Base(e.deletedAt), k)
  }

  predicate Taken(rows: TrashRows, user: string, basename: string, suffix: string) {
    exists id :: id in rows && rows[id].user == user && rows[id].basename == basename && rows[id].suffix == suffix
  }

  // Counting gives a suffix no row has.
  lemma UniqueSuffixIsFresh(rows: TrashRows, user: string, basename: string, now: nat)
    requires Numbered(rows)
    ensures !Taken(rows, user, basename, UniqueSuffix(rows, user, basename, now))
  {
    var n := |Bucket(rows, user, basename, Base(now))|;
    forall id | id in rows && rows[id].user == user && rows[id].basename == basename
      ensures rows[id].suffix != Nth(Base(now), n + 1)
    {
      var e := rows[id];
      assert NumberedRow(rows, e);
      var k :| 1 <= k <= |Bucket(rows, e.user, e.basename, Base(e.deletedAt))| && e.suffix == Nth(Base(e.deletedAt), k);
      if Nth(Base(e.deletedAt), k) == Nth(Base(now), n + 1) {
        NthInjective(e.deletedAt, k, now, n + 1);
      }
    }
  }

  // Inserting the row with that suffix keeps the numbering.
  lemma InsertKeepsNumbered(rows: TrashRows, id: nat, e: TrashEntry)
    requires Numbered(rows) && id !in rows && e.suffix == UniqueSuffix(rows, e.user, e.basename, e.deletedAt)
    ensures Numbered(rows[id := e])
  {
    var rows' := rows[id := e];
    forall j | j in rows'
      ensures NumberedRow(rows', rows'[j])
    {
      var r := rows'[j];
      var base := Base(r.deletedAt);
      if j == id {
        NewRowNumbered(rows, id, e);
      } else {
        BucketGrows(rows, id, e, r.user, r.basename, base);
        assert NumberedRow(rows, r);
      }
    }
  }

  lemma NewRowNumbered(rows: TrashRows, id: nat, e: TrashEntry)
    requires id !in rows && e.suffix == UniqueSuffix(rows, e.user, e.basename, e.deletedAt)
    ensures NumberedRow(rows[id := e], e)
  {
    var base := Base(e.deletedAt);
    assert base <= e.suffix;
    assert Bucket(rows[id := e], e.user, e.basename, base) == Bucket(rows, e.user, e.basename, base) + {id};
  }

  lemma BucketGrows(rows: TrashRows, id: nat, e: TrashEntry, user: string, basename: string, base: string)
    requires id !in rows
    ensures |Bucket(rows, user, basename, base)| <= |Bucket(rows[id := e], user, basename, base)|
  {
    var less, more := Bucket(rows, user, basename, base), Bucket(rows[id := e], user, basename, base);
    assert less <= more;
    assert more == less + (more - less);
  }

  // A row's suffix is the k-th of its second.
  predicate HasIndex(e: TrashEntry, k: nat) {
    k >= 1 && e.suffix == Nth(Base(e.deletedAt), k)
  }

  // Whatever has been added and removed: the counted suffix is taken exactly if a row of
  // the same second has that index.
  lemma SuffixTakenIff(rows: TrashRows, user: string, basename: string, now: nat)
    requires forall id :: id in rows ==> exists k :: HasIndex(rows[id], k)
    ensures
      var bucket := Bucket(rows, user, basename, Base(now));
      Taken(rows, user, basename, UniqueSuffix(rows, user, basename, now)) <==>
      exists id :: id in bucket && rows[id].deletedAt == now && HasIndex(rows[id], |bucket| + 1)
  {
    var bucket := Bucket(rows, user, basename, Base(now));
    forall id | id in rows && rows[id].user == user && rows[id].basename == basename &&
      rows[id].suffix == Nth(Base(now), |bucket| + 1)
      ensures id in bucket && rows[id].deletedAt == now && HasIndex(rows[id], |bucket| + 1)
    {
      var k :| HasIndex(rows[id], k);
      NthInjective(rows[id].deletedAt, k, now, |bucket| + 1);
    }
  }

  predicate SameName(d: TrashEntry, e: TrashEntry) {
    d.user == e.user && d.basename == e.basename && d.suffix == e.suffix
  }

  lemma BucketWithout(rows: TrashRows, id: nat, user: string, basename: string, base: string)
    requires id in Bucket(rows, user, basename, base)
    ensures |Bucket(rows - {id}, user, basename, base)| == |Bucket(rows, user, basename, base)| - 1
  {
    assert Bucket(rows - {id}, user, basename, base) == Bucket(rows, user, basename, base) - {id};
  }

  // With the suffixes 1 to n of a second in use, removing the k-th makes the next deletion
  // of that second collide exactly if k is not the last.
  lemma RemovalCollidesIff(rows: TrashRows, id: nat, k: nat)
    requires forall i, j :: i in rows && j in rows && SameName(rows[i], rows[j]) ==> i == j
    requires id in rows && HasIndex(rows[id], k)
    requires
      var e := rows[id];
      var n := |Bucket(rows, e.user, e.basename, Base(e.deletedAt))|;
      k <= n && Taken(rows, e.user, e.basename, Nth(Base(e.deletedAt), n))
    ensures
      var e := rows[id];
      Taken(rows - {id}, e.user, e.basename, UniqueSuffix(rows - {id}, e.user, e.basename, e.deletedAt)) <==>
      k < |Bucket(rows, e.user, e.basename, Base(e.deletedAt))|
  {
    var e, rows' := rows[id], rows - {id};
    var base := Base(e.deletedAt);
    var bucket := Bucket(rows, e.user, e.basename, base);
    BucketWithout(rows, id, e.user, e.basename, base);
    var j :| j in rows && rows[j].user == e.user && rows[j].basename == e.basename &&
      rows[j].suffix == Nth(base, |bucket|);
    if k < |bucket| && j == id {
      NthInjective(e.deletedAt, k, e.deletedAt, |bucket|);
    }
    if k < |bucket| {
      assert j in rows' && rows'[j].suffix == UniqueSuffix(rows', e.user, e.basename, e.deletedAt);
    } else {
      assert SameName(rows[j], rows[id]);
    }
  }

  // Once a row of the second has been removed the count is too small: with `a.d5` restored
  // and `a.d5_2` still there, the next deletion at second 5 is given `d5_2` again.
  lemma RemovalBreaksFreshness()
    ensures
      var rows := map[1 := TrashEntry("u", "a", "d5_2", [], 5, false, None)];
      && Numbered(map[0 := TrashEntry("u", "a", "d5", [], 5, false, None)] + rows)
      && Taken(rows, "u", "a", UniqueSuffix(rows, "u", "a", 5))
  {
    var e0, e1 := TrashEntry("u", "a", "d5", [], 5, false, None), TrashEntry("u", "a", "d5_2", [], 5, false, None);
    var rows, both := map[1 := e1], map[0 := e0] + map[1 := e1];
    assert Decimal(5) == "5" && Decimal(2) == "2";
    assert Base(5) == "d5" && Nth("d5", 2) == "d5_2";
    assert "d5" <= "d5_2" by { assert "d5_2"[..2] == "d5"; }
    assert Bucket(rows, "u", "a", "d5") == {1};
    assert Bucket(both, "u", "a", "d5") == {0, 1};
    assert NumberedRow(both, e0) by { assert e0.suffix == Nth(Base(5), 1); }
    assert NumberedRow(both, e1) by { assert e1.suffix == Nth(Base(5), 2); }
    assert rows[1].suffix == UniqueSuffix(rows, "u", "a", 5);
  }

  // ---------- names inside the trashbin directory ----------

  function TrashName(basename: string, suffix: string): string {
    basename + "." + suffix
  }

  // A suffix has no dot, so the last dot of the name separates the two parts again.
  lemma {:induction false} TrashNameInjective(a: string, s: string, b: string, t: string)
    requires '.' !in s && '.' !in t && TrashName(a, s) == TrashName(b, t)
    ensures a == b && s == t
  {
    var u, v := TrashName(a, s), TrashName(b, t);
    assert u[|a|] == '.' && v[|b|] == '.';
    assert forall i :: |a| < i < |u| ==> u[i] == s[i - |a| - 1];
    assert forall i :: |b| < i < |v| ==> v[i] == t[i - |b| - 1];
    assert |a| == |b|;
    assert a == u[..|a|] && b == v[..|b|] && s == u[|a| + 1..] && t == v[|b| + 1..];
  }

  lemma SuffixHasNoDot(now: nat, k: nat)
    ensures '.' !in Nth(Base(now), k)
  {
  }

  // ---------- restored names ----------

  function Candidate(basename: string, n: nat): string {
    if n == 0 then basename
    else if n == 1 then basename + " (restored)"
    else basename + " (restored " + Decimal(n) + ")"
  }

  // The hundred candidates are pairwise distinct.
  lemma CandidatesDistinct(basename: string, m: nat, n: nat)
    requires Candidate(basename, m) == Candidate(basename, n)
    ensures m == n
  {
    var a, b := Candidate(basename, m)[|basename|..], Candidate(basename, n)[|basename|..];
    if m > 1 {
      assert a == " (restored " + Decimal(m) + ")";
      assert a[10] == ' ';
    } else if m == 1 {
      assert a == " (restored)";
      assert a[10] == ')';
    }
    if n > 1 {
      assert b == " (restored " + Decimal(n) + ")";
      assert b[10] == ' ';
    } else if n == 1 {
      assert b == " (restored)";
      assert b[10] == ')';
    }
    if m > 1 && n > 1 {
      assert a[11..|a| - 1] == Decimal(m) && b[11..|b| - 1] == Decimal(n);
      DecimalInjective(m, n);
    }
  }
}
