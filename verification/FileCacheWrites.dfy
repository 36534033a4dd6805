// What one event writes into which rows, field by field, and what an unchanged etag says
// about a single row over a whole run, be it a file or a directory.
module FileCacheWrites {
  import opened Wrappers
  import opened StoragePaths
  import opened PlainTree
  import opened FileCacheSpec
  import opened FileCacheRefinement
  import opened FileCacheMoves
  import opened FileCacheEtags

  // ---------- the rows above ----------

  // The row has the delta added, the event's time and an etag drawn by the event; the rest
  // is as it was.
  predicate Marked(c: Cache, c': Cache, row: Row, row': Row, delta: int, mtime: int) {
    && row'.fileid == row.fileid && row'.parent == row.parent && row'.name == row.name && row'.isDir == row.isDir
    && row'.size == row.size + delta && row'.mtime == mtime
    && row'.etag.Drawn? && c.clock <= row'.etag.n < c'.clock
  }

  // A row other than the one at `leaf` is marked if it is above, and untouched otherwise.
  predicate RowAfter(c: Cache, c': Cache, leaf: Path, delta: int, mtime: int, p: Path)
    requires p in c.rows && p in c'.rows
  {
    if p < leaf then Marked(c, c', c.rows[p], c'.rows[p], delta, mtime) else p == leaf || c'.rows[p] == c.rows[p]
  }

  predicate EtagsApart(rows: Rows, p: Path, q: Path)
    requires p in rows && q in rows
  {
    rows[p].etag == rows[q].etag ==> p == q
  }

  // Every other row that is still there, and no etag given twice.
  ghost predicate OthersRight(c: Cache, c': Cache, leaf: Path, delta: int, mtime: int) {
    && (forall p {:trigger RowAfter(c, c', leaf, delta, mtime, p)} :: p in c.rows && p in c'.rows ==>
          RowAfter(c, c', leaf, delta, mtime, p))
    && (forall p, q {:trigger EtagsApart(c'.rows, p, q)} :: p in c'.rows && q in c'.rows && p < leaf && q < leaf ==>
          EtagsApart(c'.rows, p, q))
  }

  // A row of the walk, at its distance from the leaf.
  lemma Walked(c1: Cache, leaf: Path, delta: int, mtime: int, p: Path)
    requires p in c1.rows && p < leaf
    ensures
      var c' := WalkedUp(c1, leaf, delta, mtime);
      && p in c'.rows && |p| < |leaf| && c'.rows[p].etag == Drawn(c1.clock + |leaf| - 1 - |p|)
      && Marked(c1, c', c1.rows[p], c'.rows[p], delta, mtime)
  {
    ProperPrefix(p, leaf);
  }

  lemma WalkedRight(c: Cache, c1: Cache, leaf: Path, delta: int, mtime: int)
    requires c.clock <= c1.clock && forall p :: p in c1.rows && p != leaf ==> p in c.rows && c1.rows[p] == c.rows[p]
    ensures OthersRight(c, WalkedUp(c1, leaf, delta, mtime), leaf, delta, mtime)
  {
    var c' := WalkedUp(c1, leaf, delta, mtime);
    forall p | p in c.rows && p in c'.rows
      ensures RowAfter(c, c', leaf, delta, mtime, p)
    {
      assert p in c1.rows;
      if p < leaf {
        Walked(c1, leaf, delta, mtime, p);
      }
    }
    forall p, q | p in c'.rows && q in c'.rows && p < leaf && q < leaf
      ensures EtagsApart(c'.rows, p, q)
    {
      Walked(c1, leaf, delta, mtime, p);
      Walked(c1, leaf, delta, mtime, q);
      assert p == leaf[..|p|] && q == leaf[..|q|];
    }
  }

  // ---------- a file or a directory is written ----------

  // The id of the row at the parent path, if there is one.
  function RowAbove(rows: Rows, path: Path): Option<nat> {
    if path != [] && Parent(path) in rows then Some(rows[Parent(path)].fileid) else None
  }

  // The row at `path` has what the event says, under its old id or a new one, and only the
  // rows above change besides.
  ghost predicate WroteRow(c: Cache, c': Cache, path: Path, isDir: bool, size: nat, tag: nat, mtime: int) {
    && c'.rows.Keys == c.rows.Keys + {path}
    && StampOf(c'.rows[path]) == Stamp(c'.rows[path].fileid, isDir, size, Backend(tag), mtime)
    && c'.rows[path].name == Basename(path) && c'.rows[path].parent == RowAbove(c.rows, path)
    && (if path in c.rows then c'.rows[path].fileid == c.rows[path].fileid
        else forall q :: q in c.rows ==> c.rows[q].fileid != c'.rows[path].fileid)
    && OthersRight(c, c', path, if path in c.rows then size - c.rows[path].size else size, mtime)
  }

  lemma InsertEffect(c: Cache, c1: Cache, path: Path, row: Row, delta: int, tag: nat, mtime: int)
    requires Inv(c) && c1 == Inserted(c, path, row) && delta == row.size - OldSize(c.rows, path)
    requires row.name == Basename(path) && row.etag == Backend(tag) && row.mtime == mtime && row.size >= 0
    requires row.parent == RowAbove(c.rows, path)
    requires row.fileid == if path in c.rows then c.rows[path].fileid else c.nextId
    ensures WroteRow(c, WalkedUp(c1, path, delta, mtime), path, row.isDir, row.size, tag, mtime)
  {
    InsertedRight(c, c1, path, row, delta, mtime);
    Wrote(c, WalkedUp(c1, path, delta, mtime), path, row, delta, tag, mtime);
  }

  lemma Wrote(c: Cache, c': Cache, path: Path, row: Row, delta: int, tag: nat, mtime: int)
    requires Inv(c) && delta == row.size - OldSize(c.rows, path)
    requires row.name == Basename(path) && row.etag == Backend(tag) && row.mtime == mtime && row.size >= 0
    requires row.parent == RowAbove(c.rows, path)
    requires row.fileid == if path in c.rows then c.rows[path].fileid else c.nextId
    requires c'.rows.Keys == c.rows.Keys + {path} && c'.rows[path] == row
    requires OthersRight(c, c', path, delta, mtime)
    ensures WroteRow(c, c', path, row.isDir, row.size, tag, mtime)
  {
    IdsBelow(c);
  }

  // One row put into the table, and the walk from it.
  lemma InsertedRight(c: Cache, c1: Cache, path: Path, row: Row, delta: int, mtime: int)
    requires c1.rows == c.rows[path := row] && c.clock <= c1.clock
    ensures
      var c' := WalkedUp(c1, path, delta, mtime);
      && c'.rows.Keys == c.rows.Keys + {path} && c'.rows[path] == row && OthersRight(c, c', path, delta, mtime)
  {
    WalkedRight(c, c1, path, delta, mtime);
    WalkedKeys(c1, path, delta, mtime);
  }

  lemma WalkedKeys(c1: Cache, path: Path, delta: int, mtime: int)
    ensures WalkedUp(c1, path, delta, mtime).rows.Keys == c1.rows.Keys
    ensures path in c1.rows ==> WalkedUp(c1, path, delta, mtime).rows[path] == c1.rows[path]
  {
  }

  lemma IdsBelow(c: Cache)
    requires Inv(c)
    ensures forall q :: q in c.rows ==> c.rows[q].fileid < c.nextId && c.rows[q].etag != Drawn(c.clock)
  {
    forall q | q in c.rows
      ensures c.rows[q].fileid < c.nextId && c.rows[q].etag != Drawn(c.clock)
    {
      assert RowOk(c, q);
    }
  }

  lemma PutWrites(c: Cache, path: StoragePath, isDir: bool, size: nat, tag: nat, mtime: int)
    requires Inv(c) && ResolveParent(c.rows, path).Ok?
    ensures Put(c, path, isDir, size, tag, mtime).1 == Done
    ensures WroteRow(c, Put(c, path, isDir, size, tag, mtime).0, path, isDir, if isDir then 0 else size, tag, mtime)
  {
    var row := PutTaken(c, path, isDir, size, tag, mtime);
    var c1, delta := Inserted(c, path, row), row.size - OldSize(c.rows, path);
    var c' := WalkedUp(c1, path, delta, mtime);
    assert Put(c, path, isDir, size, tag, mtime) == (c', Done);
    InsertEffect(c, c1, path, row, delta, tag, mtime);
  }

  // Accepted exactly if the parent has a row or is the root, and refused without effect.
  lemma PutEffect(c: Cache, path: StoragePath, isDir: bool, size: nat, tag: nat, mtime: int)
    requires Inv(c)
    ensures
      var (c', r) := Put(c, path, isDir, size, tag, mtime);
      if path == [] || Parent(path) == [] || Parent(path) in c.rows
      then r == Done && WroteRow(c, c', path, isDir, if isDir then 0 else size, tag, mtime)
      else c' == c && r == Failed(AncestorMissing(Parent(path)))
  {
    if ResolveParent(c.rows, path).Ok? {
      PutWrites(c, path, isDir, size, tag, mtime);
    }
  }

  // ---------- a copy ----------

  // The copy has a new id, a new etag and the event's time; kind and size are the source's.
  ghost predicate CopiedRow(c: Cache, c': Cache, from: Path, to: Path, now: int) {
    && from in c.rows && to !in c.rows && c'.rows.Keys == c.rows.Keys + {to}
    && StampOf(c'.rows[to]) ==
         Stamp(c'.rows[to].fileid, c.rows[from].isDir, c.rows[from].size, c'.rows[to].etag, now)
    && c'.rows[to].name == Basename(to) && c'.rows[to].parent == RowAbove(c.rows, to)
    && (forall q :: q in c.rows ==> c.rows[q].fileid != c'.rows[to].fileid && c.rows[q].etag != c'.rows[to].etag)
    && OthersRight(c, c', to, c.rows[from].size, now)
  }

  lemma CopyTaken(c: Cache, from: StoragePath, to: StoragePath, now: int) returns (row: Row, c1: Cache)
    requires Copy(c, from, to, now).1.Done?
    ensures from in c.rows && to !in c.rows && row.fileid == c.nextId && row.etag == Drawn(c.clock)
    ensures row.name == Basename(to) && row.isDir == c.rows[from].isDir && row.size == c.rows[from].size &&
            row.mtime == now && row.parent == RowAbove(c.rows, to)
    ensures c1.rows == c.rows[to := row] && c.clock <= c1.clock
    ensures Copy(c, from, to, now).0 == WalkedUp(c1, to, row.size, now)
  {
    var src, c0 := c.rows[from], c.(clock := c.clock + 1);
    row := NewRow(c0, to, ResolveParent(c.rows, to).value, src.isDir, src.size, Drawn(c.clock), now);
    c1 := Inserted(c0, to, row);
  }

  lemma CopyEffect(c: Cache, from: StoragePath, to: StoragePath, now: int)
    requires Inv(c) && Copy(c, from, to, now).1.Done?
    ensures CopiedRow(c, Copy(c, from, to, now).0, from, to, now)
    ensures Copy(c, from, to, now).0.rows[to].fileid >= c.nextId
  {
    var row, c1 := CopyTaken(c, from, to, now);
    InsertedRight(c, c1, to, row, row.size, now);
    WroteCopy(c, WalkedUp(c1, to, row.size, now), from, to, row, now);
  }

  lemma WroteCopy(c: Cache, c': Cache, from: Path, to: Path, row: Row, now: int)
    requires Inv(c) && from in c.rows && to !in c.rows && row.fileid == c.nextId && row.etag == Drawn(c.clock)
    requires row.name == Basename(to) && row.isDir == c.rows[from].isDir && row.size == c.rows[from].size &&
             row.mtime == now && row.parent == RowAbove(c.rows, to)
    requires c'.rows.Keys == c.rows.Keys + {to} && c'.rows[to] == row
    requires OthersRight(c, c', to, c.rows[from].size, now)
    ensures CopiedRow(c, c', from, to, now)
  {
    IdsBelow(c);
  }

  // ---------- a deletion ----------

  lemma DeleteEffect(c: Cache, path: Path, now: int)
    requires Inv(c) && path in c.rows
    ensures
      var (c', r) := Delete(c, path, now);
      && r == Done && path !in c'.rows
      && (forall p :: p in c'.rows <==> p in c.rows && !Doomed(c.rows, path, p))
      && OthersRight(c, c', path, -c.rows[path].size, now)
  {
    CascadeIsSubtree(c, path);
    RemainingWalk(c, path);
    RemovedRight(c, c.(rows := Cascaded(c.rows, c.rows[path].fileid)), path, now);
  }

  lemma RemovedRight(c: Cache, c1: Cache, path: Path, now: int)
    requires path in c.rows && c.clock <= c1.clock
    requires forall p :: p in c1.rows ==> p in c.rows && c1.rows[p] == c.rows[p]
    ensures WalkedUp(c1, path, -c.rows[path].size, now).rows.Keys == c1.rows.Keys
    ensures OthersRight(c, WalkedUp(c1, path, -c.rows[path].size, now), path, -c.rows[path].size, now)
  {
    WalkedRight(c, c1, path, -c.rows[path].size, now);
  }

  // ---------- a single row, over a run ----------

  // Where a row of the later state comes from, unless it was written over: it was touched
  // since, it is new, or it is an earlier row with the same stamp.
  ghost predicate RowExplained(c: Cache, c': Cache, e: Path)
    requires e in c'.rows
  {
    || (c'.rows[e].etag.Drawn? && c'.rows[e].etag.n >= c.clock)
    || c'.rows[e].fileid >= c.nextId
    || exists d :: d in c.rows && StampOf(c.rows[d]) == StampOf(c'.rows[e])
  }

  // The event writes over the row at `p`.
  predicate Overwrites(c: Cache, ev: Event, p: Path) {
    (ev.Written? || ev.DirCreated?) && ev.path == p && p in c.rows
  }

  lemma AfterExplained(c: Cache, c': Cache, leaf: Path, delta: int, mtime: int, e: Path)
    requires OthersRight(c, c', leaf, delta, mtime) && e in c.rows && e in c'.rows && e != leaf
    ensures RowExplained(c, c', e)
  {
    assert RowAfter(c, c', leaf, delta, mtime, e);
  }

  lemma StepRow(fold: bool, c: Cache, ev: Event, e: Path)
    requires Inv(c) && Clean(fold, c, ev) && e in Apply(c, ev).0.rows && !Overwrites(c, ev, e)
    ensures RowExplained(c, Apply(c, ev).0, e)
  {
    var (c', r) := Apply(c, ev);
    match ev
    case Written(path, size, tag, mtime) => PutRow(c, path, false, size, tag, mtime, e);
    case DirCreated(path, tag, mtime) => PutRow(c, path, true, 0, tag, mtime, e);
    case Deleted(path, now) =>
      DeletedRow(c, path, now, e);
    case Moved(from, to, now) =>
      if r.Done? {
        MoveRow(c, from, to, now, e);
      }
    case Copied(from, to, now) =>
      if r.Done? {
        CopyRow(c, from, to, now, e);
      }
  }

  lemma DeletedRow(c: Cache, path: Path, now: int, e: Path)
    requires Inv(c) && e in Delete(c, path, now).0.rows
    ensures RowExplained(c, Delete(c, path, now).0, e)
  {
    if path in c.rows {
      DeleteEffect(c, path, now);
      AfterExplained(c, Delete(c, path, now).0, path, -c.rows[path].size, now, e);
    }
  }

  lemma CopyRow(c: Cache, from: StoragePath, to: StoragePath, now: int, e: Path)
    requires Inv(c) && Copy(c, from, to, now).1.Done? && e in Copy(c, from, to, now).0.rows
    ensures RowExplained(c, Copy(c, from, to, now).0, e)
  {
    CopyEffect(c, from, to, now);
    if e != to {
      AfterExplained(c, Copy(c, from, to, now).0, to, c.rows[from].size, now, e);
    }
  }

  lemma PutRow(c: Cache, path: StoragePath, isDir: bool, size: nat, tag: nat, mtime: int, e: Path)
    requires Inv(c) && e in Put(c, path, isDir, size, tag, mtime).0.rows && (e == path ==> path !in c.rows)
    ensures RowExplained(c, Put(c, path, isDir, size, tag, mtime).0, e)
  {
    PutEffect(c, path, isDir, size, tag, mtime);
    if ResolveParent(c.rows, path).Ok? {
      var row := PutTaken(c, path, isDir, size, tag, mtime);
      var n := if isDir then 0 else size;
      if e != path {
        AfterExplained(c, Put(c, path, isDir, size, tag, mtime).0, path,
                       if path in c.rows then n - c.rows[path].size else n, mtime, e);
      }
    }
  }

  lemma MoveRow(c: Cache, from: Path, to: Path, now: int, e: Path)
    requires Inv(c) && to != [] && !(from <= to) && Move(c, from, to, now).1.Done? &&
             e in Move(c, from, to, now).0.rows
    ensures RowExplained(c, Move(c, from, to, now).0, e)
  {
    ClosedKeys(c, from, to, now);
    ClosedRow(c, from, to, now, Subst(to, from, e));
  }

  // The same row, by its id, with the same etag at two moments.
  predicate SameRow(c0: Cache, c: Cache, d: Path, e: Path) {
    d in c0.rows && e in c.rows && c0.rows[d].fileid == c.rows[e].fileid && c0.rows[d].etag == c.rows[e].etag
  }

  // Equal etags mean equal kinds, sizes and times.
  ghost predicate Truthful(c0: Cache, c: Cache) {
    forall d, e {:trigger SameRow(c0, c, d, e)} :: SameRow(c0, c, d, e) ==> StampOf(c0.rows[d]) == StampOf(c.rows[e])
  }

  // The stamp a write gives the row, but for its id.
  function WrittenStamp(id: nat, ev: Event): Stamp
    requires ev.Written? || ev.DirCreated?
  {
    match ev
    case Written(_, size, tag, mtime) => Stamp(id, false, size, Backend(tag), mtime)
    case DirCreated(_, tag, mtime) => Stamp(id, true, 0, Backend(tag), mtime)
  }

  // A row written over gets an etag it did not have at the first moment, or is written as it
  // was then.
  ghost predicate OverwritesAlike(c0: Cache, c: Cache, ev: Event) {
    (ev.Written? || ev.DirCreated?) && ev.path in c.rows ==>
      forall d :: d in c0.rows && c0.rows[d].fileid == c.rows[ev.path].fileid && c0.rows[d].etag == Backend(ev.tag) ==>
        StampOf(c0.rows[d]) == WrittenStamp(c.rows[ev.path].fileid, ev)
  }

  // One event keeps equal etags meaning equal rows exactly then.
  lemma TruthfulStepIff(fold: bool, c0: Cache, c: Cache, ev: Event)
    requires Later(c0, c) && Clean(fold, c, ev) && Truthful(c0, c)
    ensures Truthful(c0, Apply(c, ev).0) <==> OverwritesAlike(c0, c, ev)
  {
    var c' := Apply(c, ev).0;
    forall d, e | SameRow(c0, c', d, e) && !Overwrites(c, ev, e)
      ensures StampOf(c0.rows[d]) == StampOf(c'.rows[e])
    {
      StepRow(fold, c, ev, e);
      assert RowOk(c0, d);
      var b :| b in c.rows && StampOf(c.rows[b]) == StampOf(c'.rows[e]);
      assert SameRow(c0, c, d, b);
    }
    if (ev.Written? || ev.DirCreated?) && ev.path in c.rows {
      WrittenOver(c, ev);
      forall d | d in c0.rows && c0.rows[d].fileid == c.rows[ev.path].fileid && c0.rows[d].etag == Backend(ev.tag)
        ensures SameRow(c0, c', d, ev.path)
      {
      }
    }
  }

  lemma WrittenOver(c: Cache, ev: Event)
    requires Inv(c) && (ev.Written? || ev.DirCreated?) && ev.path in c.rows
    ensures ev.path in Apply(c, ev).0.rows
    ensures StampOf(Apply(c, ev).0.rows[ev.path]) == WrittenStamp(c.rows[ev.path].fileid, ev)
  {
    assert ParentNamed(c.rows, ev.path);
    match ev
    case Written(path, size, tag, mtime) => PutEffect(c, path, false, size, tag, mtime);
    case DirCreated(path, tag, mtime) => PutEffect(c, path, true, 0, tag, mtime);
  }

  ghost predicate AlwaysTruthful(c0: Cache, c: Cache, es: seq<Event>)
    decreases |es|
  {
    Truthful(c0, c) && (es == [] || AlwaysTruthful(c0, Apply(c, es[0]).0, es[1..]))
  }

  ghost predicate AllOverwritesAlike(c0: Cache, c: Cache, es: seq<Event>)
    decreases |es|
  {
    es == [] || (OverwritesAlike(c0, c, es[0]) && AllOverwritesAlike(c0, Apply(c, es[0]).0, es[1..]))
  }

  // Throughout a run an unchanged etag of a file or directory means an unchanged kind, size
  // and time exactly if no write gives a row back an etag of the first moment with others.
  lemma {:induction false} TruthfulIff(fold: bool, c0: Cache, c: Cache, es: seq<Event>)
    requires Later(c0, c) && CleanRun(fold, c, es) && Truthful(c0, c)
    ensures AlwaysTruthful(c0, c, es) <==> AllOverwritesAlike(c0, c, es)
    ensures AllOverwritesAlike(c0, c, es) ==> Truthful(c0, RunCache(c, es))
    decreases |es|
  {
    if es != [] {
      var m := Apply(c, es[0]).0;
      TruthfulStepIff(fold, c0, c, es[0]);
      StepInv(fold, c, es[0]);
      if Truthful(c0, m) {
        TruthfulIff(fold, c0, m, es[1..]);
      } else {
        assert !AlwaysTruthful(c0, m, es[1..]);
      }
    }
  }

  // No event reuses an etag that some row has at the first moment.
  ghost predicate NoneReused(c0: Cache, es: seq<Event>) {
    forall k, d :: 0 <= k < |es| && (es[k].Written? || es[k].DirCreated?) && d in c0.rows ==>
      c0.rows[d].etag != Backend(es[k].tag)
  }

  lemma {:induction false} NoneReusedAlike(c0: Cache, c: Cache, es: seq<Event>)
    requires NoneReused(c0, es)
    ensures AllOverwritesAlike(c0, c, es)
    decreases |es|
  {
    if es != [] {
      forall k | 0 <= k < |es[1..]|
        ensures es[1..][k] == es[k + 1]
      {
      }
      assert NoneReused(c0, es[1..]);
      NoneReusedAlike(c0, Apply(c, es[0]).0, es[1..]);
    }
  }

  // What a client relies on that compares etags: over a run whose writes reuse no etag, the
  // same row with the same etag at both ends has the same kind, size and time.
  lemma EqualEtagMeansEqualRow(fold: bool, c: Cache, es: seq<Event>, d: Path, e: Path)
    requires Inv(c) && CleanRun(fold, c, es) && NoneReused(c, es) && SameRow(c, RunCache(c, es), d, e)
    ensures StampOf(c.rows[d]) == StampOf(RunCache(c, es).rows[e])
  {
    forall d, e | SameRow(c, c, d, e)
      ensures StampOf(c.rows[d]) == StampOf(c.rows[e])
    {
      assert OneRowPerId(c.rows, d, e);
    }
    NoneReusedAlike(c, c, es);
    TruthfulIff(fold, c, c, es);
  }
}
