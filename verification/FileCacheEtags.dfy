// What a sync client relies on: a directory whose etag has not changed has not changed
// anywhere below, even if the directory itself was moved in between.
module FileCacheEtags {
  import opened Wrappers
  import opened StoragePaths
  import opened PlainTree
  import opened FileCacheSpec
  import opened FileCacheRefinement

  // What a client can see of a row, apart from where it hangs.
  datatype Stamp = Stamp(fileid: nat, isDir: bool, size: int, etag: ETag, mtime: int)

  function StampOf(row: Row): Stamp {
    Stamp(row.fileid, row.isDir, row.size, row.etag, row.mtime)
  }

  // The subtree at `d` in one table looks like the subtree at `e` in another: the same
  // relative paths with the same stamps.
  ghost predicate SameSubtree(a: Rows, d: Path, b: Rows, e: Path) {
    forall r: Path :: SameAt(a, d, b, e, r)
  }

  ghost predicate SameAt(a: Rows, d: Path, b: Rows, e: Path, r: Path) {
    (d + r in a <==> e + r in b) && (d + r in a && e + r in b ==> StampOf(a[d + r]) == StampOf(b[e + r]))
  }

  // A move's pattern selects just the rows below its source, so that it does what `Move`
  // says.
  ghost predicate Clean(fold: bool, c: Cache, e: Event) {
    e.Moved? ==> MovesCleanly(fold, c.rows, e.from, e.to)
  }

  // Where a directory row of the later state comes from, unless it was created again: it
  // was touched since, it is new, or it is an earlier directory with the same etag and the
  // same subtree.
  ghost predicate Explained(c: Cache, c': Cache, e: Path)
    requires e in c'.rows
  {
    || (c'.rows[e].etag.Drawn? && c'.rows[e].etag.n >= c.clock)
    || c'.rows[e].fileid >= c.nextId
    || exists d :: Source(c, c', d, e)
  }

  ghost predicate Source(c: Cache, c': Cache, d: Path, e: Path)
    requires e in c'.rows
  {
    && d in c.rows && c.rows[d].isDir && c.rows[d].fileid == c'.rows[e].fileid
    && c.rows[d].etag == c'.rows[e].etag && SameSubtree(c.rows, d, c'.rows, e)
  }

  lemma Unchanged(c: Cache, c': Cache, e: Path)
    requires e in c'.rows && c'.rows[e].isDir
    requires forall r: Path :: SameAt(c.rows, e, c'.rows, e, r)
    ensures Explained(c, c', e)
  {
    assert SameAt(c.rows, e, c'.rows, e, []);
    assert e + [] == e;
    assert Source(c, c', e, e);
  }

  // ---------- one event ----------

  lemma InsertExplained(c: Cache, path: Path, row: Row, delta: int, mtime: int, clock: nat, e: Path)
    requires row.fileid == (if path in c.rows then c.rows[path].fileid else c.nextId) && clock >= c.clock
    requires e in WalkedUp(Inserted(c.(clock := clock), path, row), path, delta, mtime).rows
    requires WalkedUp(Inserted(c.(clock := clock), path, row), path, delta, mtime).rows[e].isDir
    requires path in c.rows && row.isDir ==> e != path
    ensures Explained(c, WalkedUp(Inserted(c.(clock := clock), path, row), path, delta, mtime), e)
  {
    var c' := WalkedUp(Inserted(c.(clock := clock), path, row), path, delta, mtime);
    if e < path {
    } else if e == path {
    } else {
      forall r: Path
        ensures SameAt(c.rows, e, c'.rows, e, r)
      {
        ProperPrefix(e, path);
        Outside(e, path, r);
      }
      Unchanged(c, c', e);
    }
  }

  lemma Outside(e: Path, x: Path, r: Path)
    requires !(e <= x)
    ensures e + r != x && !(e + r < x) && e <= e + r
    ensures x <= e + r ==> x <= e
  {
    assert e <= e + r;
    PrefixesComparable(e, x, e + r);
  }

  lemma DeleteExplained(c: Cache, x: Path, now: int, e: Path)
    requires Inv(c) && e in Delete(c, x, now).0.rows && Delete(c, x, now).0.rows[e].isDir
    ensures Explained(c, Delete(c, x, now).0, e)
  {
    var c' := Delete(c, x, now).0;
    if x !in c.rows {
      Unchanged(c, c', e);
    } else {
      CascadeIsSubtree(c, x);
      RemainingWalk(c, x);
      if !(e < x) {
        assert e != x;
        ProperPrefix(e, x);
        forall r: Path
          ensures SameAt(c.rows, e, c'.rows, e, r)
        {
          Outside(e, x, r);
          SameDoom(c.rows, x, e, r);
        }
        Unchanged(c, c', e);
      }
    }
  }

  // What lies below a row that survives also survives.
  lemma SameDoom(rows: Rows, x: Path, e: Path, r: Path)
    requires !(e <= x) && !Doomed(rows, x, e)
    ensures !Doomed(rows, x, e + r)
  {
    Outside(e, x, r);
    if e != [] {
      assert (e + r)[..1] == e[..1];
    }
  }

  lemma MoveExplained(c: Cache, from: Path, to: Path, now: int, e: Path)
    requires Inv(c) && to != [] && !(from <= to)
    requires e in Move(c, from, to, now).0.rows && Move(c, from, to, now).0.rows[e].isDir
    ensures Explained(c, Move(c, from, to, now).0, e)
  {
    var (c', outcome) := Move(c, from, to, now);
    if outcome.Failed? {
      Unchanged(c, c', e);
    } else {
      var pid := ResolveParent(c.rows, to).value;
      NothingBelowVacant(c.rows, to);
      var c1 := c.(rows := Relocated(c.rows, from, to, pid));
      ShiftedKeys(c1, from, to, c.rows[from].size, now);
      ShiftedRow(c1, from, to, c.rows[from].size, now, e);
      if !(e < from) && !(e < to) {
        MovedFrom(c, c1, from, to, pid, now, e);
      }
    }
  }

  // A directory off the two chains has its old id, etag and subtree.
  lemma MovedFrom(c: Cache, c1: Cache, from: Path, to: Path, pid: Option<nat>, now: int, e: Path)
    requires Inv(c) && from in c.rows && from != [] && to != [] && !(from <= to) && to !in c.rows
    requires Vacant(c.rows.Keys, to) && c1 == c.(rows := Relocated(c.rows, from, to, pid))
    requires e in c1.rows && !(e < from) && !(e < to) && c1.rows[e].isDir
    ensures Explained(c, Shifted(c1, from, to, c.rows[from].size, now), e)
  {
    var c' := Shifted(c1, from, to, c.rows[from].size, now);
    ShiftedKeys(c1, from, to, c.rows[from].size, now);
    ShiftedRow(c1, from, to, c.rows[from].size, now, e);
    MovedSame(c, c1, from, to, pid, now, e);
    var d := Subst(to, from, e);
    assert SameAt(c.rows, d, c'.rows, e, []);
    assert e + [] == e && d + [] == d;
    assert Source(c, c', d, e);
  }

  lemma MovedSame(c: Cache, c1: Cache, from: Path, to: Path, pid: Option<nat>, now: int, e: Path)
    requires Inv(c) && from in c.rows && from != [] && to != [] && !(from <= to) && to !in c.rows
    requires Vacant(c.rows.Keys, to) && c1 == c.(rows := Relocated(c.rows, from, to, pid))
    requires e in c1.rows && !(e < from) && !(e < to)
    ensures Subst(to, from, e) in c.rows
    ensures SameSubtree(c.rows, Subst(to, from, e), Shifted(c1, from, to, c.rows[from].size, now).rows, e)
  {
    Origin(c.rows, from, to, pid, e);
    forall r: Path
      ensures SameAt(c.rows, Subst(to, from, e), Shifted(c1, from, to, c.rows[from].size, now).rows, e, r)
    {
      MovedAt(c, c1, from, to, pid, now, e, r);
    }
  }

  lemma MovedAt(c: Cache, c1: Cache, from: Path, to: Path, pid: Option<nat>, now: int, e: Path, r: Path)
    requires Inv(c) && from in c.rows && from != [] && to != [] && !(from <= to) && to !in c.rows
    requires Vacant(c.rows.Keys, to) && c1 == c.(rows := Relocated(c.rows, from, to, pid))
    requires e in c1.rows && !(e < from) && !(e < to)
    ensures SameAt(c.rows, Subst(to, from, e), Shifted(c1, from, to, c.rows[from].size, now).rows, e, r)
  {
    var size := c.rows[from].size;
    var d := Subst(to, from, e);
    Origin(c.rows, from, to, pid, e);
    ShiftedKeys(c1, from, to, size, now);
    MovedBelow(c, from, to, pid, e, r);
    if e + r in c1.rows {
      ShiftedRow(c1, from, to, size, now, e + r);
      assert !(e + r < from) && !(e + r < to) by {
        assert e <= e + r;
        assert e + r < from ==> e < from;
        assert e + r < to ==> e < to;
      }
    }
  }

  lemma MovedBelow(c: Cache, from: Path, to: Path, pid: Option<nat>, e: Path, r: Path)
    requires Vacant(c.rows.Keys, to) && e in Relocated(c.rows, from, to, pid) && !(e < from) && !(e < to)
    requires ParentsNamed(c.rows) && from in c.rows && to != []
    ensures Subst(to, from, e) + r in c.rows <==> e + r in Relocated(c.rows, from, to, pid)
    ensures e + r in Relocated(c.rows, from, to, pid) ==>
              Subst(to, from, e) + r in c.rows &&
              StampOf(Relocated(c.rows, from, to, pid)[e + r]) == StampOf(c.rows[Subst(to, from, e) + r])
  {
    var d := Subst(to, from, e);
    Origin(c.rows, from, to, pid, e);
    if to <= e {
      SubstBelow(to, from, e, r);
      SubstBelow(from, to, d, r);
    } else {
      ProperPrefix(e, to);
      Outside(e, to, r);
      OutsideBoth(from, e, r);
    }
    if d + r in c.rows {
      Arrives(c.rows, from, to, pid, d + r);
    }
    if e + r in Relocated(c.rows, from, to, pid) {
      Origin(c.rows, from, to, pid, e + r);
    }
  }

  lemma SubstBelow(from: Path, to: Path, p: Path, r: Path)
    requires from <= p
    ensures from <= p + r && Subst(from, to, p + r) == Subst(from, to, p) + r
  {
    assert (p + r)[|from|..] == p[|from|..] + r;
    assert to + (p[|from|..] + r) == (to + p[|from|..]) + r;
  }

  lemma OutsideBoth(from: Path, e: Path, r: Path)
    requires !(from <= e) && !(e < from)
    ensures !(from <= e + r)
  {
    assert e != from;
    ProperPrefix(e, from);
    Outside(e, from, r);
  }

  lemma PutExplained(c: Cache, path: StoragePath, isDir: bool, size: nat, tag: nat, mtime: int, e: Path)
    requires Inv(c) && ResolveParent(c.rows, path).Ok? && (path in c.rows && isDir ==> e != path)
    requires e in Put(c, path, isDir, size, tag, mtime).0.rows && Put(c, path, isDir, size, tag, mtime).0.rows[e].isDir
    ensures Explained(c, Put(c, path, isDir, size, tag, mtime).0, e)
  {
    var row := PutTaken(c, path, isDir, size, tag, mtime);
    InsertExplained(c, path, row, row.size - OldSize(c.rows, path), mtime, c.clock, e);
  }

  lemma CopyExplained(c: Cache, from: StoragePath, to: StoragePath, now: int, e: Path)
    requires Inv(c) && Copy(c, from, to, now).1.Done?
    requires e in Copy(c, from, to, now).0.rows && Copy(c, from, to, now).0.rows[e].isDir
    ensures Explained(c, Copy(c, from, to, now).0, e)
  {
    var src := c.rows[from];
    var row := NewRow(c, to, ResolveParent(c.rows, to).value, src.isDir, src.size, Drawn(c.clock), now);
    InsertExplained(c, to, row, src.size, now, c.clock + 1, e);
  }

  // The event creates a directory at a path that has a row.
  predicate Recreates(c: Cache, ev: Event, p: Path) {
    ev.DirCreated? && ev.path == p && p in c.rows
  }

  lemma StepExplained(fold: bool, c: Cache, ev: Event, e: Path)
    requires Inv(c) && Clean(fold, c, ev) && e in Apply(c, ev).0.rows && Apply(c, ev).0.rows[e].isDir
    ensures Explained(c, Apply(c, ev).0, e) || Recreates(c, ev, e)
  {
    var (c', outcome) := Apply(c, ev);
    if c' == c {
      Unchanged(c, c', e);
    } else {
      match ev
      case Written(path, size, tag, mtime) => PutExplained(c, path, false, size, tag, mtime, e);
      case DirCreated(path, tag, mtime) =>
        if !Recreates(c, ev, e) {
          PutExplained(c, path, true, 0, tag, mtime, e);
        }
      case Deleted(path, now) => DeleteExplained(c, path, now, e);
      case Moved(from, to, now) => MoveExplained(c, from, to, now, e);
      case Copied(from, to, now) => CopyExplained(c, from, to, now, e);
    }
  }

  // ---------- whole runs ----------

  lemma StepInv(fold: bool, c: Cache, ev: Event)
    requires Inv(c) && Clean(fold, c, ev)
    ensures Inv(Apply(c, ev).0)
    ensures Apply(c, ev).0.clock >= c.clock && Apply(c, ev).0.nextId >= c.nextId
  {
    match ev
    case Written(path, size, tag, mtime) => PutInv(c, path, false, size, tag, mtime);
    case DirCreated(path, tag, mtime) => PutInv(c, path, true, 0, tag, mtime);
    case Deleted(path, now) => DeleteInv(c, path, now);
    case Moved(from, to, now) => MoveInv(c, from, to, now);
    case Copied(from, to, now) => CopyInv(c, from, to, now);
  }

  ghost predicate CleanRun(fold: bool, c: Cache, es: seq<Event>)
    decreases |es|
  {
    es == [] || (Clean(fold, c, es[0]) && CleanRun(fold, Apply(c, es[0]).0, es[1..]))
  }

  // Some event of the run created a directory with that etag.
  predicate CreatedWith(es: seq<Event>, etag: ETag) {
    exists k :: 0 <= k < |es| && es[k].DirCreated? && etag == Backend(es[k].tag)
  }

  // Over any run a directory row was touched since, is new, was created since with the etag
  // it has, or is an earlier directory with the same etag and the same subtree.
  lemma {:induction false} RunExplained(fold: bool, c: Cache, es: seq<Event>, e: Path)
    requires Inv(c) && CleanRun(fold, c, es) && e in RunCache(c, es).rows && RunCache(c, es).rows[e].isDir
    ensures Explained(c, RunCache(c, es), e) || CreatedWith(es, RunCache(c, es).rows[e].etag)
    decreases |es|
  {
    var c' := RunCache(c, es);
    if es == [] {
      Unchanged(c, c', e);
    } else {
      var m := Apply(c, es[0]).0;
      StepInv(fold, c, es[0]);
      RunExplained(fold, m, es[1..], e);
      if CreatedWith(es[1..], c'.rows[e].etag) {
        var k :| 0 <= k < |es[1..]| && es[1..][k].DirCreated? && c'.rows[e].etag == Backend(es[1..][k].tag);
        assert es[k + 1] == es[1..][k];
      } else if d :| Source(m, c', d, e) {
        StepExplained(fold, c, es[0], d);
        if Recreates(c, es[0], d) {
          RecreatedRow(c, es[0].path, es[0].tag, es[0].mtime);
        } else if b :| Source(c, m, b, d) {
          SubtreeTransitive(c.rows, b, m.rows, d, c'.rows, e);
          assert Source(c, c', b, e);
        }
      }
    }
  }

  lemma SubtreeTransitive(a: Rows, x: Path, b: Rows, y: Path, c: Rows, z: Path)
    requires SameSubtree(a, x, b, y) && SameSubtree(b, y, c, z)
    ensures SameSubtree(a, x, c, z)
  {
    forall r: Path
      ensures SameAt(a, x, c, z, r)
    {
      assert SameAt(a, x, b, y, r) && SameAt(b, y, c, z, r);
    }
  }

  // ---------- creating a directory again ----------

  // The row keeps its id and gets the etag of the event; below it nothing changes.
  lemma RecreatedRow(c: Cache, p: StoragePath, tag: nat, mtime: int)
    requires Inv(c) && p in c.rows
    ensures
      var rows' := Put(c, p, true, 0, tag, mtime).0.rows;
      && p in rows' && StampOf(rows'[p]) == Stamp(c.rows[p].fileid, true, 0, Backend(tag), mtime)
      && (forall q :: p < q ==> (q in rows' <==> q in c.rows) && (q in c.rows ==> rows'[q] == c.rows[q]))
  {
    assert ParentNamed(c.rows, p);
    var row := PutTaken(c, p, true, 0, tag, mtime);
  }

  // What a directory created again finds: it was empty of bytes, as old as the event says,
  // and below it everything is as it was.
  ghost predicate Unaltered(a: Rows, d: Path, b: Rows, p: Path, mtime: int)
    requires d in a
  {
    a[d].isDir && a[d].size == 0 && a[d].mtime == mtime && forall r: Path :: r != [] ==> SameAt(a, d, b, p, r)
  }

  // With the etag it had at an earlier moment it has the subtree of that moment exactly then.
  lemma RecreatedSameIff(c0: Cache, d: Path, c: Cache, p: StoragePath, tag: nat, mtime: int)
    requires Inv(c) && p in c.rows && d in c0.rows && c0.rows[d].fileid == c.rows[p].fileid &&
             c0.rows[d].etag == Backend(tag)
    ensures SameSubtree(c0.rows, d, Put(c, p, true, 0, tag, mtime).0.rows, p) <==>
            Unaltered(c0.rows, d, c.rows, p, mtime)
  {
    var rows' := Put(c, p, true, 0, tag, mtime).0.rows;
    RecreatedRow(c, p, tag, mtime);
    forall r: Path
      ensures r != [] ==> (SameAt(c0.rows, d, rows', p, r) <==> SameAt(c0.rows, d, c.rows, p, r))
      ensures r == [] ==> (SameAt(c0.rows, d, rows', p, r) <==> StampOf(c0.rows[d]) == StampOf(rows'[p]))
    {
      assert d + [] == d && p + [] == p;
      assert r != [] ==> p < p + r;
    }
    assert SameSubtree(c0.rows, d, rows', p) ==> SameAt(c0.rows, d, rows', p, []);
  }

  // ---------- equal etags ----------

  // The same directory, by its id, with the same etag at two moments.
  predicate SameEtag(c0: Cache, c: Cache, d: Path, e: Path) {
    && d in c0.rows && e in c.rows && c.rows[e].isDir
    && c0.rows[d].fileid == c.rows[e].fileid && c0.rows[d].etag == c.rows[e].etag
  }

  // Equal etags mean equal subtrees.
  ghost predicate Faithful(c0: Cache, c: Cache) {
    forall d, e {:trigger SameEtag(c0, c, d, e)} :: SameEtag(c0, c, d, e) ==> SameSubtree(c0.rows, d, c.rows, e)
  }

  // A directory created again gets an etag it did not have at the first moment, or is found
  // as it was then.
  ghost predicate RecreatesAlike(c0: Cache, c: Cache, ev: Event) {
    ev.DirCreated? && ev.path in c.rows ==>
      forall d :: d in c0.rows && c0.rows[d].fileid == c.rows[ev.path].fileid && c0.rows[d].etag == Backend(ev.tag) ==>
        Unaltered(c0.rows, d, c.rows, ev.path, ev.mtime)
  }

  ghost predicate Later(c0: Cache, c: Cache) {
    Inv(c0) && Inv(c) && c0.clock <= c.clock && c0.nextId <= c.nextId
  }

  // One event keeps equal etags meaning equal subtrees exactly then.
  lemma FaithfulStepIff(fold: bool, c0: Cache, c: Cache, ev: Event)
    requires Later(c0, c) && Clean(fold, c, ev) && Faithful(c0, c)
    ensures Faithful(c0, Apply(c, ev).0) <==> RecreatesAlike(c0, c, ev)
  {
    var c' := Apply(c, ev).0;
    forall d, e | SameEtag(c0, c', d, e) && !Recreates(c, ev, e)
      ensures SameSubtree(c0.rows, d, c'.rows, e)
    {
      StepExplained(fold, c, ev, e);
      StillSame(c0, c, c', d, e);
    }
    if ev.DirCreated? && ev.path in c.rows {
      RecreatedRow(c, ev.path, ev.tag, ev.mtime);
      forall d | d in c0.rows && c0.rows[d].fileid == c.rows[ev.path].fileid && c0.rows[d].etag == Backend(ev.tag)
        ensures SameEtag(c0, c', d, ev.path)
        ensures SameSubtree(c0.rows, d, c'.rows, ev.path) <==> Unaltered(c0.rows, d, c.rows, ev.path, ev.mtime)
      {
        RecreatedSameIff(c0, d, c, ev.path, ev.tag, ev.mtime);
      }
    }
  }

  lemma StillSame(c0: Cache, c: Cache, c': Cache, d: Path, e: Path)
    requires Later(c0, c) && Faithful(c0, c) && SameEtag(c0, c', d, e) && Explained(c, c', e)
    ensures SameSubtree(c0.rows, d, c'.rows, e)
  {
    assert RowOk(c0, d);
    var b :| Source(c, c', b, e);
    assert SameEtag(c0, c, d, b);
    SubtreeTransitive(c0.rows, d, c.rows, b, c'.rows, e);
  }

  ghost predicate AlwaysFaithful(c0: Cache, c: Cache, es: seq<Event>)
    decreases |es|
  {
    Faithful(c0, c) && (es == [] || AlwaysFaithful(c0, Apply(c, es[0]).0, es[1..]))
  }

  ghost predicate AllAlike(c0: Cache, c: Cache, es: seq<Event>)
    decreases |es|
  {
    es == [] || (RecreatesAlike(c0, c, es[0]) && AllAlike(c0, Apply(c, es[0]).0, es[1..]))
  }

  // Throughout a run equal etags mean equal subtrees exactly if no directory created again
  // gets back the etag of the first moment with a subtree that has changed.
  lemma {:induction false} FaithfulIff(fold: bool, c0: Cache, c: Cache, es: seq<Event>)
    requires Later(c0, c) && CleanRun(fold, c, es) && Faithful(c0, c)
    ensures AlwaysFaithful(c0, c, es) <==> AllAlike(c0, c, es)
    ensures AllAlike(c0, c, es) ==> Faithful(c0, RunCache(c, es))
    decreases |es|
  {
    if es != [] {
      var m := Apply(c, es[0]).0;
      FaithfulStepIff(fold, c0, c, es[0]);
      StepInv(fold, c, es[0]);
      if Faithful(c0, m) {
        FaithfulIff(fold, c0, m, es[1..]);
      } else {
        assert !AlwaysFaithful(c0, m, es[1..]);
      }
    }
  }

  lemma FaithfulAtFirst(c: Cache)
    requires Inv(c)
    ensures Faithful(c, c)
  {
    forall d, e | SameEtag(c, c, d, e)
      ensures SameSubtree(c.rows, d, c.rows, e)
    {
      assert OneRowPerId(c.rows, d, e);
    }
  }

  // The theorem: the same directory with the same etag at two moments of such a run has the
  // same subtree at both.
  lemma EqualEtagMeansEqualSubtree(fold: bool, c: Cache, es: seq<Event>, d: Path, e: Path)
    requires Inv(c) && CleanRun(fold, c, es) && AllAlike(c, c, es) && SameEtag(c, RunCache(c, es), d, e)
    ensures SameSubtree(c.rows, d, RunCache(c, es).rows, e)
  {
    FaithfulAtFirst(c);
    FaithfulIff(fold, c, c, es);
  }

  // And where it fails: a file is written into a directory, and the directory created again
  // with the etag it had.
  lemma RecreationHidesChange(fold: bool, c: Cache, p: StoragePath, tag: nat, name: string, size: nat, filetag: nat,
                              now: int, mtime: int)
    requires Inv(c) && p in c.rows && c.rows[p].isDir && c.rows[p].etag == Backend(tag)
    requires Storable(p + [name]) && p + [name] !in c.rows
    ensures
      var es := [Written(p + [name], size, filetag, now), DirCreated(p, tag, mtime)];
      && CleanRun(fold, c, es) && SameEtag(c, RunCache(c, es), p, p)
      && p + [name] in RunCache(c, es).rows && !SameSubtree(c.rows, p, RunCache(c, es).rows, p)
      && RunCache(c, es).rows[p].size == 0
  {
    var f := p + [name];
    var es := [Written(f, size, filetag, now), DirCreated(p, tag, mtime)];
    assert Parent(f) == p && p < f;
    var m := Put(c, f, false, size, filetag, now).0;
    var row := PutTaken(c, f, false, size, filetag, now);
    PutInv(c, f, false, size, filetag, now);
    assert p in m.rows && f in m.rows && m.rows[p].fileid == c.rows[p].fileid;
    var c' := Put(m, p, true, 0, tag, mtime).0;
    RecreatedRow(m, p, tag, mtime);
    TwoEvents(fold, c, es[0], es[1]);
    assert !SameAt(c.rows, p, c'.rows, p, [name]);
  }

  lemma TwoEvents(fold: bool, c: Cache, a: Event, b: Event)
    ensures RunCache(c, [a, b]) == Apply(Apply(c, a).0, b).0
    ensures !a.Moved? && !b.Moved? ==> CleanRun(fold, c, [a, b])
  {
    var m, rest := Apply(c, a).0, [a, b][1..];
    assert rest == [b] && rest[1..] == [];
    assert RunCache(m, rest) == Apply(m, b).0;
    assert !b.Moved? ==> CleanRun(fold, m, rest);
  }
}
