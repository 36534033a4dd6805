// Moving a subtree away and back restores the table.  First for the closed form of a move,
// then for what the program does when its pattern selects just the rows below the source.
module FileCacheMoves {
  import opened Wrappers
  import opened StoragePaths
  import opened PlainTree
  import opened FileCacheSpec
  import opened FileCacheRefinement
  import opened FileCacheRewrites

  // One row of the table after an accepted move, in terms of where it came from.
  lemma ClosedRow(c: Cache, from: Path, to: Path, now: int, p: Path)
    requires ParentsNamed(c.rows) && to != [] && !(from <= to) && Move(c, from, to, now).1.Done?
    requires p in c.rows
    ensures
      var c', q := Move(c, from, to, now).0, Subst(from, to, p);
      && q in c'.rows && Subst(to, from, q) == p
      && c'.rows[q] == c.rows[p].(parent := if q == to then ResolveParent(c.rows, to).value else c.rows[p].parent,
                                  name := if q == to then Basename(to) else c.rows[p].name,
                                  size := c.rows[p].size - (if q < from then c.rows[from].size else 0)
                                                         + (if q < to then c.rows[from].size else 0),
                                  etag := c'.rows[q].etag, mtime := c'.rows[q].mtime)
      && (if q < from || q < to
          then c'.rows[q].etag.Drawn? && c'.rows[q].etag.n >= c.clock && c'.rows[q].mtime == now
          else c'.rows[q].etag == c.rows[p].etag && c'.rows[q].mtime == c.rows[p].mtime)
  {
    NothingBelowVacant(c.rows, to);
    var pid := ResolveParent(c.rows, to).value;
    Arrives(c.rows, from, to, pid, p);
    ShiftedRow(c.(rows := Relocated(c.rows, from, to, pid)), from, to, c.rows[from].size, now, Subst(from, to, p));
  }

  // The table after an accepted move has no other rows.
  lemma ClosedKeys(c: Cache, from: Path, to: Path, now: int)
    requires ParentsNamed(c.rows) && to != [] && !(from <= to) && Move(c, from, to, now).1.Done?
    ensures Move(c, from, to, now).0.rows.Keys == set p | p in c.rows :: Subst(from, to, p)
    ensures forall q :: q in Move(c, from, to, now).0.rows ==>
              Subst(to, from, q) in c.rows && Subst(from, to, Subst(to, from, q)) == q && (from <= q ==> to <= q)
  {
    NothingBelowVacant(c.rows, to);
    var pid := ResolveParent(c.rows, to).value;
    var c1 := c.(rows := Relocated(c.rows, from, to, pid));
    ShiftedKeys(c1, from, to, c.rows[from].size, now);
    forall q | q in c1.rows
      ensures Subst(to, from, q) in c.rows && Subst(from, to, Subst(to, from, q)) == q && (from <= q ==> to <= q)
    {
      Origin(c.rows, from, to, pid, q);
    }
    forall p | p in c.rows
      ensures Subst(from, to, p) in c1.rows
    {
      Arrives(c.rows, from, to, pid, p);
    }
  }

  lemma ClosedBackAccepted(c: Cache, from: StoragePath, to: StoragePath, now: int, later: int)
    requires Inv(c) && to != [] && !(from <= to) && Move(c, from, to, now).1.Done?
    ensures !(to <= from)
    ensures
      var c1 := Move(c, from, to, now).0;
      && Move(c1, to, from, later).1.Done? && from !in c1.rows && to in c1.rows
      && c1.rows[to].size == c.rows[from].size
      && ResolveParent(c1.rows, from) == ResolveParent(c.rows, from)
  {
    var c1 := Move(c, from, to, now).0;
    NothingBelowVacant(c.rows, to);
    ClosedKeys(c, from, to, now);
    ClosedRow(c, from, to, now, from);
    assert Subst(from, to, from) == to;
    assert from !in c1.rows;
    ParentAfterMove(c, from, to, now);
    forall p | p in c1.rows
      ensures ByteLen(Render(Subst(to, from, p))) <= MAX_PATH_LEN
    {
      assert RowOk(c, Subst(to, from, p));
    }
  }

  lemma ParentAfterMove(c: Cache, from: Path, to: Path, now: int)
    requires Inv(c) && to != [] && !(from <= to) && Move(c, from, to, now).1.Done?
    ensures ResolveParent(Move(c, from, to, now).0.rows, from) == ResolveParent(c.rows, from)
    ensures ResolveParent(c.rows, from).Ok?
  {
    var a := Parent(from);
    var c1 := Move(c, from, to, now).0;
    ClosedKeys(c, from, to, now);
    NothingBelowVacant(c.rows, to);
    assert !(from <= a);
    assert ParentNamed(c.rows, from);
    if a in c.rows {
      ClosedRow(c, from, to, now, a);
    } else {
      assert a == [];
      assert Subst(to, from, []) == [];
    }
  }

  // Away and back: the same paths hold the same rows with the same sizes.  Only the chains
  // above the two ends have new etags and times, and the moved row's parent is looked up anew.
  lemma ClosedBackRestores(c: Cache, from: StoragePath, to: StoragePath, now: int, later: int)
    requires Inv(c) && to != [] && !(from <= to) && Move(c, from, to, now).1.Done?
    ensures
      var c1 := Move(c, from, to, now).0;
      var (c2, outcome) := Move(c1, to, from, later);
      && outcome.Done? && c2.rows.Keys == c.rows.Keys
      && forall p :: p in c.rows ==> p in c2.rows && RestoredRow(c.rows, c2.rows[p], from, to, p)
  {
    var c1 := Move(c, from, to, now).0;
    ClosedBackAccepted(c, from, to, now, later);
    MoveInv(c, from, to, now);
    ClosedKeys(c, from, to, now);
    ClosedKeys(c1, to, from, later);
    var c2 := Move(c1, to, from, later).0;
    forall p | p in c.rows
      ensures p in c2.rows && RestoredRow(c.rows, c2.rows[p], from, to, p)
    {
      ClosedRow(c, from, to, now, p);
      ClosedRow(c1, to, from, later, Subst(from, to, p));
      RestoredOne(c, from, to, now, later, p);
    }
    forall p | p in c2.rows
      ensures p in c.rows
    {
      var q := Subst(from, to, p);
      assert q in c1.rows && Subst(to, from, q) in c.rows;
    }
  }

  ghost predicate RestoredRow(rows: Rows, row: Row, from: Path, to: Path, p: Path)
    requires p in rows
  {
    && row == rows[p].(parent := row.parent, etag := row.etag, mtime := row.mtime)
    && (if p == from then ResolveParent(rows, from) == Ok(row.parent) else row.parent == rows[p].parent)
    && (p < from || p < to || (row.etag == rows[p].etag && row.mtime == rows[p].mtime))
  }

  lemma RestoredOne(c: Cache, from: StoragePath, to: StoragePath, now: int, later: int, p: Path)
    requires Inv(c) && to != [] && !(from <= to) && !(to <= from) && Move(c, from, to, now).1.Done? && p in c.rows
    requires
      var c1 := Move(c, from, to, now).0;
      && Move(c1, to, from, later).1.Done? && Inv(c1) && to in c1.rows && c1.rows[to].size == c.rows[from].size
      && ResolveParent(c1.rows, from) == ResolveParent(c.rows, from)
    ensures p in Move(Move(c, from, to, now).0, to, from, later).0.rows
    ensures RestoredRow(c.rows, Move(Move(c, from, to, now).0, to, from, later).0.rows[p], from, to, p)
  {
    var c1 := Move(c, from, to, now).0;
    var q := Subst(from, to, p);
    ClosedRow(c, from, to, now, p);
    ClosedRow(c1, to, from, later, q);
    assert RowOk(c, p);
    NothingBelowVacant(c.rows, to);
    SubstFacts(from, to, p);
    if from <= p {
      assert !(q < from) && !(q < to);
      assert p == from <==> q == to;
    } else {
      assert q == p;
    }
  }

  // ---------- the program's moves ----------

  // One row of the table after an accepted move, in terms of where it came from.
  lemma MovedRow(fold: bool, c: Cache, from: Path, to: StoragePath, now: int, c': Cache, p: Path)
    requires Inv(c) && MovesCleanly(fold, c.rows, from, to) && MoveOutcome(fold, c, from, to, now, c', Done) &&
             p in c.rows
    ensures
      var q := Subst(from, to, p);
      && q in c'.rows && Subst(to, from, q) == p
      && c'.rows[q] == c.rows[p].(parent := if q == to then ResolveParent(c.rows, to).value else c.rows[p].parent,
                                  name := if q == to then Basename(to) else c.rows[p].name,
                                  size := c.rows[p].size - (if q < from then c.rows[from].size else 0)
                                                         + (if q < to then c.rows[from].size else 0),
                                  etag := c'.rows[q].etag, mtime := c'.rows[q].mtime)
      && (if q < from || q < to
          then c'.rows[q].etag.Drawn? && c'.rows[q].etag.n >= c.clock && c'.rows[q].mtime == now
          else c'.rows[q].etag == c.rows[p].etag && c'.rows[q].mtime == c.rows[p].mtime)
  {
    CleanOutcome(fold, c, from, to, now, c', Done);
    ClosedRow(c, from, to, now, p);
  }

  // The moved row hangs below the row at its new parent's path.
  lemma MovedParent(fold: bool, c: Cache, from: Path, to: StoragePath, now: int, c': Cache)
    requires Inv(c) && MovesCleanly(fold, c.rows, from, to) && MoveOutcome(fold, c, from, to, now, c', Done)
    ensures from in c.rows && to in c'.rows && c'.rows[to].fileid == c.rows[from].fileid
    ensures c'.rows[to].parent ==
            if Parent(to) in c'.rows then Some(c'.rows[Parent(to)].fileid) else None
  {
    CleanOutcome(fold, c, from, to, now, c', Done);
    ClosedRow(c, from, to, now, from);
    ClosedKeys(c, from, to, now);
    var a := Parent(to);
    assert !(from <= a);
    if a in c.rows {
      ClosedRow(c, from, to, now, a);
    }
  }

  // The table after an accepted move has no other rows.
  lemma MovedKeys(fold: bool, c: Cache, from: Path, to: StoragePath, now: int, c': Cache)
    requires Inv(c) && MovesCleanly(fold, c.rows, from, to) && MoveOutcome(fold, c, from, to, now, c', Done)
    ensures c'.rows.Keys == set p | p in c.rows :: Subst(from, to, p)
    ensures forall q :: q in c'.rows ==>
              Subst(to, from, q) in c.rows && Subst(from, to, Subst(to, from, q)) == q && (from <= q ==> to <= q)
  {
    CleanOutcome(fold, c, from, to, now, c', Done);
    ClosedKeys(c, from, to, now);
  }

  // A refused move changes nothing and says why.
  lemma MoveRefused(fold: bool, c: Cache, from: StoragePath, to: StoragePath, now: int, c': Cache, e: Error)
    requires Inv(c) && MovesCleanly(fold, c.rows, from, to) && MoveOutcome(fold, c, from, to, now, c', Failed(e))
    ensures c' == c
    ensures match e
            case NotFound => from !in c.rows
            case UniqueViolation => to in c.rows
            case AncestorMissing(a) => a != [] && a == Parent(to) && a !in c.rows
            case Invalid => exists p :: p in c.rows && from < p && ByteLen(Render(Subst(from, to, p))) > MAX_PATH_LEN
            case _ => false
  {
    CleanOutcome(fold, c, from, to, now, c', Failed(e));
  }

  // The opposite move, if its pattern too selects just the rows below its source, succeeds.
  lemma MoveBackAccepted(fold: bool, c: Cache, from: StoragePath, to: StoragePath, now: int, c1: Cache, later: int,
                         c2: Cache, r: Outcome<Error>)
    requires Inv(c) && MovesCleanly(fold, c.rows, from, to) && MoveOutcome(fold, c, from, to, now, c1, Done)
    requires MovesCleanly(fold, c1.rows, to, from) && MoveOutcome(fold, c1, to, from, later, c2, r)
    ensures r == Done
  {
    CleanOutcome(fold, c, from, to, now, c1, Done);
    MoveInv(c, from, to, now);
    CleanOutcome(fold, c1, to, from, later, c2, r);
    ClosedBackAccepted(c, from, to, now, later);
  }

  // And then every path, size, id, name and parent is as before.
  lemma MoveBackRestores(fold: bool, c: Cache, from: StoragePath, to: StoragePath, now: int, c1: Cache, later: int,
                         c2: Cache, r: Outcome<Error>)
    requires Inv(c) && MovesCleanly(fold, c.rows, from, to) && MoveOutcome(fold, c, from, to, now, c1, Done)
    requires MovesCleanly(fold, c1.rows, to, from) && MoveOutcome(fold, c1, to, from, later, c2, r)
    ensures c2.rows.Keys == c.rows.Keys
    ensures forall p :: p in c.rows ==> p in c2.rows && RestoredRow(c.rows, c2.rows[p], from, to, p)
  {
    CleanOutcome(fold, c, from, to, now, c1, Done);
    MoveInv(c, from, to, now);
    CleanOutcome(fold, c1, to, from, later, c2, r);
    ClosedBackRestores(c, from, to, now, later);
  }
}
