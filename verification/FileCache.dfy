// The file cache of one storage: a row table changed in place by storage events, one
// transaction each.  Every method is proved against the closed form in FileCacheSpec.
module FileCaches {
  import opened Wrappers
  import opened StoragePaths
  import opened LikePattern
  import opened PlainTree
  import opened FileCacheSpec
  import opened FileCacheRefinement
  import opened FileCacheRewrites

  // ---------- the class ----------

  class FileCache {
    // LIKE ignores ASCII case on sqlite, and not on the other two databases.
    const fold: bool
    var rows: Rows
    var nextId: nat
    var clock: nat

    ghost function State(): Cache
      reads this
    {
      Cache(rows, nextId, clock)
    }

    constructor (fold: bool)
      ensures this.fold == fold && State() == Cache(map[], 0, 0)
    {
      this.fold := fold;
      rows := map[];
      nextId := 0;
      clock := 0;
    }

    // Undo everything since the transaction began.
    method Rollback(savedRows: Rows, savedId: nat, savedClock: nat)
      modifies this
      ensures State() == Cache(savedRows, savedId, savedClock)
    {
      rows := savedRows;
      nextId := savedId;
      clock := savedClock;
    }

    // Walk from the parent of `leaf` to the root, adding `delta` and drawing an etag at
    // every row on the way.
    method PropagateAncestors(leaf: Path, delta: int, mtime: int) returns (r: Outcome<Error>)
      modifies this
      ensures FirstMissing(old(rows), leaf).Some? ==> r == Failed(AncestorMissing(FirstMissing(old(rows), leaf).value))
      ensures FirstMissing(old(rows), leaf).None? ==>
                r == Done && State() == WalkedUp(old(State()), leaf, delta, mtime)
    {
      var cur := if leaf == [] then None else Some(Parent(leaf));
      WalkStart(rows, leaf, delta, mtime, clock);
      while cur.Some?
        invariant WalkState(old(State()), State(), leaf, cur, delta, mtime)
        decreases if cur.Some? then |cur.value| + 1 else 0
      {
        var anc := cur.value;
        ghost var before := State();
        if anc !in rows {
          WalkMissing(old(State()), before, leaf, anc, delta, mtime);
          if anc == [] {
            break;
          }
          return Failed(AncestorMissing(anc));
        }
        rows := rows[anc := Bumped(rows[anc], delta, clock, mtime)];
        clock := clock + 1;
        WalkNext(old(State()), before, State(), leaf, anc, delta, mtime);
        if anc == [] {
          break;
        }
        cur := Some(Parent(anc));
      }
      return Done;
    }

    // Delete the row with this id and, as the foreign key demands, every row whose parent
    // has been deleted.
    method CascadeDelete(id: nat)
      modifies this`rows
      ensures rows == Cascaded(old(rows), id)
    {
      var doomed := set p | p in rows && rows[p].fileid == id;
      CascadeStart(rows, id);
      while exists p, q :: p in rows.Keys - doomed && q in doomed && q in rows && rows[p].parent == Some(rows[q].fileid)
        invariant rows == old(rows)
        invariant CascadeSoFar(rows, id, doomed)
        decreases |rows.Keys - doomed|
      {
        var p, q :| p in rows.Keys - doomed && q in doomed && q in rows && rows[p].parent == Some(rows[q].fileid);
        CascadeNext(rows, id, doomed, p, q);
        doomed := doomed + {p};
      }
      CascadeEnd(rows, id, doomed);
      rows := rows - doomed;
    }

    // `apply_written`: `Written` and `DirCreated`.
    method ApplyPut(path: StoragePath, isDir: bool, size: nat, tag: nat, mtime: int) returns (r: Outcome<Error>)
      modifies this
      ensures (State(), r) == Put(old(State()), path, isDir, size, tag, mtime)
      ensures r.Done? ==> path in rows && rows[path].isDir == isDir && rows[path].size == (if isDir then 0 else size) &&
                          rows[path].etag == Backend(tag) && rows[path].mtime == mtime
    {
      var newSize := if isDir then 0 else size;
      var parent := ResolveParent(rows, path);
      if parent.Err? {
        return Failed(parent.error);
      }
      var savedRows, savedId, savedClock := rows, nextId, clock;
      var oldSize := UpsertLeaf(path, parent.value, isDir, newSize, Backend(tag), mtime);
      SameMissing(savedRows, rows, path);
      r := PropagateAncestors(path, newSize - oldSize, mtime);
      if r.Failed? {
        Rollback(savedRows, savedId, savedClock);
      }
    }

    // Update the row at `path`, or insert one under the next id; returns the size it had.
    method UpsertLeaf(path: Path, parent: Option<nat>, isDir: bool, size: int, etag: ETag, mtime: int)
      returns (oldSize: int)
      modifies this
      ensures oldSize == OldSize(old(rows), path)
      ensures State() == Inserted(old(State()), path, NewRow(old(State()), path, parent, isDir, size, etag, mtime))
      ensures path in rows && rows[path] == Row(rows[path].fileid, parent, Basename(path), isDir, size, etag, mtime)
    {
      if path in rows {
        oldSize := rows[path].size;
        rows := rows[path := rows[path].(parent := parent, name := Basename(path), isDir := isDir, size := size,
                                         mtime := mtime, etag := etag)];
      } else {
        oldSize := 0;
        rows := rows[path := Row(nextId, parent, Basename(path), isDir, size, etag, mtime)];
        nextId := nextId + 1;
      }
    }

    method ApplyDeleted(path: StoragePath, now: int) returns (r: Outcome<Error>)
      modifies this
      ensures (State(), r) == Delete(old(State()), path, now)
    {
      if path !in rows {
        return Done;
      }
      var savedRows, savedId, savedClock := rows, nextId, clock;
      var oldSize := rows[path].size;
      CascadeDelete(rows[path].fileid);
      r := PropagateAncestors(path, -oldSize, now);
      if r.Failed? {
        Rollback(savedRows, savedId, savedClock);
      }
    }

    method ApplyCopied(from: StoragePath, to: StoragePath, now: int) returns (r: Outcome<Error>)
      modifies this
      ensures (State(), r) == Copy(old(State()), from, to, now)
    {
      var parent := ResolveParent(rows, to);
      if parent.Err? {
        return Failed(parent.error);
      }
      var savedRows, savedId, savedClock := rows, nextId, clock;
      var newEtag := Drawn(clock);
      clock := clock + 1;
      if from !in rows {
        Rollback(savedRows, savedId, savedClock);
        return Failed(NotFound);
      }
      var src := rows[from];
      if to in rows {
        Rollback(savedRows, savedId, savedClock);
        return Failed(UniqueViolation);
      }
      rows := rows[to := Row(nextId, parent.value, Basename(to), src.isDir, src.size, newEtag, now)];
      nextId := nextId + 1;
      SameMissing(savedRows, rows, to);
      r := PropagateAncestors(to, src.size, now);
      if r.Failed? {
        Rollback(savedRows, savedId, savedClock);
      }
    }

    // Rewrite the path of every row the LIKE pattern selects, one row at a time, in the
    // order the database returns them.
    method RewriteDescendants(from: Path, to: Path) returns (r: Outcome<Error>)
      modifies this`rows
      ensures Rewritten(old(rows), Rewrites(fold, old(rows), from, to), rows, r)
    {
      var m := Rewrites(fold, rows, from, to);
      var todo := m.Keys;
      ghost var rows0, order: seq<Path> := rows, [];
      while todo != {}
        invariant todo <= m.Keys && todo <= rows.Keys
        invariant Visits(m, order, false) && (forall q :: q in m ==> (q in todo <==> q !in order))
        invariant InOrder(rows0, m, order) == (rows, Done)
      {
        var q :| q in todo;
        OneMoreVisit(m, order, q);
        order := order + [q];
        todo := todo - {q};
        var newPath := m[q];
        if newPath.Err? {
          assert InOrder(rows0, m, order) == (rows, Failed(newPath.error));
          return Failed(newPath.error);
        }
        if newPath.value != q {
          if newPath.value in rows {
            assert InOrder(rows0, m, order) == (rows, Failed(UniqueViolation));
            return Failed(UniqueViolation);
          }
          rows := (rows - {q})[newPath.value := rows[q]];
        }
      }
      return Done;
    }

    method ApplyMoved(from: StoragePath, to: StoragePath, now: int) returns (r: Outcome<Error>)
      modifies this
      ensures r.Failed? ==> State() == old(State())
      ensures MoveOutcome(fold, old(State()), from, to, now, State(), r)
      ensures Inv(old(State())) && MovesCleanly(fold, old(rows), from, to) ==>
                (State(), r) == Move(old(State()), from, to, now)
    {
      ghost var c := State();
      r := MoveRows(from, to, now);
      if Inv(c) && MovesCleanly(fold, c.rows, from, to) {
        CleanOutcome(fold, c, from, to, now, State(), r);
      }
    }

    // The leaf gets its new path, parent and name; then the selected rows, then the sizes.
    method MoveRows(from: StoragePath, to: StoragePath, now: int) returns (r: Outcome<Error>)
      modifies this
      ensures r.Failed? ==> State() == old(State())
      ensures MoveOutcome(fold, old(State()), from, to, now, State(), r)
    {
      var parent := ResolveParent(rows, to);
      if parent.Err? {
        return Failed(parent.error);
      }
      if from !in rows {
        return Failed(NotFound);
      }
      if to in rows && to != from {
        return Failed(UniqueViolation);
      }
      var savedRows, savedId, savedClock := rows, nextId, clock;
      var oldSize := rows[from].size;
      rows := LeafMoved(rows, from, to, parent.value);
      r := RewriteDescendants(from, to);
      ghost var rows2 := rows;
      if r.Done? {
        r := ShiftSizes(from, to, oldSize, now);
        assert Rewalked(old(State()), rows2, from, to, now, if r.Done? then State() else old(State()), r);
      }
      if r.Failed? {
        Rollback(savedRows, savedId, savedClock);
      }
    }

    // Cross-parent: subtract from the source chain and add to the target chain; otherwise
    // only refresh the common chain.
    method ShiftSizes(from: Path, to: Path, size: int, now: int) returns (r: Outcome<Error>)
      modifies this
      ensures match ShiftMissing(old(rows), from, to)
              case Some(a) => r == Failed(AncestorMissing(a))
              case None => r == Done && State() == Shifted(old(State()), from, to, size, now)
    {
      if from == [] || to == [] || Parent(from) != Parent(to) {
        ghost var rows0 := rows;
        r := PropagateAncestors(from, -size, now);
        if r.Done? {
          if FirstMissing(rows0, from).None? {
            SameMissing(rows0, rows, to);
          }
          r := PropagateAncestors(to, size, now);
        }
      } else {
        r := PropagateAncestors(to, 0, now);
      }
    }
  }

  // ---------- the upward walk ----------

  // The walk has updated the ancestors strictly below `cur`.
  ghost function PartTouched(rows: Rows, leaf: Path, cur: Path, delta: int, mtime: int, clock: nat): Rows {
    map p | p in rows ::
      if p < leaf && |p| > |cur|
      then rows[p].(size := rows[p].size + delta, etag := Drawn(clock + |leaf| - 1 - |p|), mtime := mtime)
      else rows[p]
  }

  // Between two steps of the walk: everything below `cur` is done and nothing was missing.
  ghost predicate WalkState(c0: Cache, c: Cache, leaf: Path, cur: Option<Path>, delta: int, mtime: int) {
    match cur
    case None => leaf == [] && c == c0
    case Some(anc) =>
      && anc < leaf
      && c.rows == PartTouched(c0.rows, leaf, anc, delta, mtime, c0.clock)
      && c.nextId == c0.nextId && c.clock == c0.clock + |leaf| - 1 - |anc|
      && FirstMissing(c0.rows, leaf) == FirstMissing(c0.rows, leaf[..|anc| + 1])
  }

  lemma WalkStart(rows: Rows, leaf: Path, delta: int, mtime: int, clock: nat)
    ensures leaf != [] ==> rows == PartTouched(rows, leaf, Parent(leaf), delta, mtime, clock)
    ensures leaf != [] ==> leaf[..|Parent(leaf)| + 1] == leaf && Parent(leaf) < leaf
    ensures leaf == [] ==> rows == Touched(rows, leaf, delta, mtime, clock)
  {
  }

  // The row at `anc` is missing: the root ends the walk, any other ancestor is reported.
  lemma WalkMissing(c0: Cache, c: Cache, leaf: Path, anc: Path, delta: int, mtime: int)
    requires WalkState(c0, c, leaf, Some(anc), delta, mtime) && anc !in c.rows
    ensures anc == [] ==> FirstMissing(c0.rows, leaf) == None && c == WalkedUp(c0, leaf, delta, mtime)
    ensures anc != [] ==> FirstMissing(c0.rows, leaf) == Some(anc)
  {
    assert Parent(leaf[..|anc| + 1]) == anc;
    if anc == [] {
      assert c.rows == Touched(c0.rows, leaf, delta, mtime, c0.clock);
    }
  }

  function Bumped(row: Row, delta: int, n: nat, mtime: int): Row {
    row.(size := row.size + delta, etag := Drawn(n), mtime := mtime)
  }

  lemma WalkNext(c0: Cache, c: Cache, c': Cache, leaf: Path, anc: Path, delta: int, mtime: int)
    requires WalkState(c0, c, leaf, Some(anc), delta, mtime) && anc in c.rows
    requires c'.rows == c.rows[anc := Bumped(c.rows[anc], delta, c.clock, mtime)]
    requires c'.nextId == c.nextId && c'.clock == c.clock + 1
    ensures anc != [] ==> WalkState(c0, c', leaf, Some(Parent(anc)), delta, mtime)
    ensures anc == [] ==> FirstMissing(c0.rows, leaf) == None && c' == WalkedUp(c0, leaf, delta, mtime)
  {
    TouchNext(c0.rows, c.rows, leaf, anc, delta, mtime, c0.clock, c.clock);
    PresentNext(c0.rows, leaf, anc);
  }

  lemma PresentNext(rows: Rows, leaf: Path, anc: Path)
    requires anc < leaf && anc in rows && FirstMissing(rows, leaf) == FirstMissing(rows, leaf[..|anc| + 1])
    ensures anc == [] ==> FirstMissing(rows, leaf) == None
    ensures anc != [] ==>
              Parent(anc) < leaf && FirstMissing(rows, leaf) == FirstMissing(rows, leaf[..|Parent(anc)| + 1])
  {
    assert Parent(leaf[..|anc| + 1]) == anc;
    if anc != [] {
      assert leaf[..|Parent(anc)| + 1] == anc;
    }
  }

  lemma TouchNext(rows: Rows, before: Rows, leaf: Path, cur: Path, delta: int, mtime: int, clock: nat, n: nat)
    requires cur < leaf && cur in before && before == PartTouched(rows, leaf, cur, delta, mtime, clock)
    requires n == clock + |leaf| - 1 - |cur|
    ensures cur != [] ==>
              before[cur := Bumped(before[cur], delta, n, mtime)] ==
                PartTouched(rows, leaf, Parent(cur), delta, mtime, clock)
    ensures cur == [] ==>
              before[cur := Bumped(before[cur], delta, n, mtime)] == Touched(rows, leaf, delta, mtime, clock)
  {
    forall p | p < leaf && |p| == |cur|
      ensures p == cur
    {
      assert p == leaf[..|p|] && cur == leaf[..|cur|];
    }
  }

  lemma {:induction false} SameMissing(a: Rows, b: Rows, leaf: Path)
    requires forall p :: p < leaf ==> (p in a <==> p in b)
    ensures FirstMissing(a, leaf) == FirstMissing(b, leaf)
  {
    if leaf != [] {
      assert Parent(leaf) < leaf;
      forall p | p < Parent(leaf)
        ensures p in a <==> p in b
      {
        assert p < leaf;
      }
      SameMissing(a, b, Parent(leaf));
    }
  }

  // ---------- the cascade ----------

  ghost predicate CascadeSoFar(rows: Rows, id: nat, doomed: set<Path>) {
    && doomed <= rows.Keys
    && (forall p :: p in rows && rows[p].fileid == id ==> p in doomed)
    && (forall p :: p in doomed ==> exists k: nat :: Cascades(rows, id, p, k))
  }

  lemma CascadeStart(rows: Rows, id: nat)
    ensures CascadeSoFar(rows, id, set p | p in rows && rows[p].fileid == id)
  {
    forall p | p in rows && rows[p].fileid == id
      ensures exists k: nat :: Cascades(rows, id, p, k)
    {
      assert Cascades(rows, id, p, 0);
    }
  }

  lemma CascadeNext(rows: Rows, id: nat, doomed: set<Path>, p: Path, q: Path)
    requires CascadeSoFar(rows, id, doomed) && p in rows.Keys - doomed
    requires q in doomed && rows[p].parent == Some(rows[q].fileid)
    ensures CascadeSoFar(rows, id, doomed + {p})
    ensures |rows.Keys - (doomed + {p})| < |rows.Keys - doomed|
  {
    var k: nat :| Cascades(rows, id, q, k);
    assert Cascades(rows, id, p, k + 1);
    var less := rows.Keys - (doomed + {p});
    assert rows.Keys - doomed == less + {p};
  }

  lemma CascadeEnd(rows: Rows, id: nat, doomed: set<Path>)
    requires CascadeSoFar(rows, id, doomed)
    requires !(exists p, q ::
                 p in rows.Keys - doomed && q in doomed && q in rows && rows[p].parent == Some(rows[q].fileid))
    ensures rows - doomed == Cascaded(rows, id)
  {
    forall p, k: nat | p in rows && Cascades(rows, id, p, k)
      ensures p in doomed
    {
      CascadeReached(rows, id, doomed, p, k);
    }
  }

  lemma {:induction false} CascadeReached(rows: Rows, id: nat, doomed: set<Path>, p: Path, k: nat)
    requires CascadeSoFar(rows, id, doomed) && Cascades(rows, id, p, k)
    requires !(exists p, q ::
                 p in rows.Keys - doomed && q in doomed && q in rows && rows[p].parent == Some(rows[q].fileid))
    ensures p in doomed
    decreases k
  {
    if rows[p].fileid != id {
      var q :| q in rows && rows[p].parent == Some(rows[q].fileid) && Cascades(rows, id, q, k - 1);
      CascadeReached(rows, id, doomed, q, k - 1);
    }
  }
}
