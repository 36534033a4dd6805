// The cached rows refine the plain tree: every event keeps the invariant, and every cached
// size equals the size recomputed from the files below.
module FileCacheRefinement {
  import opened Wrappers
  import opened StoragePaths
  import opened LikePattern
  import opened PlainTree
  import opened FileCacheSpec

  // ---------- abstraction ----------

  ghost predicate Refines(rows: Rows, t: Tree) {
    rows.Keys == t.Keys && forall p {:trigger RowRight(rows, t, p)} :: p in rows ==> RowRight(rows, t, p)
  }

  ghost predicate RowRight(rows: Rows, t: Tree, p: Path)
    requires p in rows && p in t
  {
    (rows[p].isDir <==> t[p].Dir?) && rows[p].size == Total(t, p)
  }

  // Only directories have entries.
  ghost predicate Shaped(t: Tree) {
    forall p {:trigger ParentIsDir(t, p)} :: p in t ==> ParentIsDir(t, p)
  }

  // The parent entry exists, or is the root, which the storage never needs to list.
  predicate Reachable(t: Tree, p: Path) {
    p == [] || Parent(p) in t || Parent(p) == []
  }

  predicate Fits(t: Tree, from: Path, to: Path) {
    forall p :: p in t && from < p ==> ByteLen(Render(Subst(from, to, p))) <= MAX_PATH_LEN
  }

  // The event on the plain tree; None when it is refused.
  function TreeStep(t: Tree, e: Event): Option<Tree> {
    match e
    case Written(p, size, _, _) => if Reachable(t, p) then Some(t[p := File(size)]) else None
    case DirCreated(p, _, _) => if Reachable(t, p) then Some(t[p := Dir]) else None
    case Deleted(p, _) => Some(if p in t then Remove(t, p) else t)
    case Moved(from, to, _) =>
      if Reachable(t, to) && from in t && to !in t && Fits(t, from, to) then Some(Rename(t, from, to)) else None
    case Copied(from, to, _) => if Reachable(t, to) && from in t && to !in t then Some(t[to := t[from]]) else None
  }

  predicate ParentIsDir(t: Tree, p: Path) {
    p != [] && Parent(p) in t ==> t[Parent(p)].Dir?
  }

  // What the backend guarantees about the events it emits.
  ghost predicate Admissible(fold: bool, c: Cache, t: Tree, e: Event) {
    match e
    case Written(p, _, _, _) => p != [] && (p in t ==> t[p].File?) && ParentIsDir(t, p)
    case DirCreated(p, _, _) => p !in t && ParentIsDir(t, p) && (p == [] ==> Total(t, []) == 0)
    case Deleted(p, _) => p == [] ==> forall q :: q in c.rows && |q| == 1 ==> c.rows[q].parent.Some?
    case Moved(from, to, _) => MovesCleanly(fold, c.rows, from, to) && ParentIsDir(t, to)
    case Copied(from, to, _) => to != [] && (from in t ==> t[from].File?) && ParentIsDir(t, to)
  }

  // One event: refused by both without effect, or taken by both with related results.
  ghost predicate StepGoal(c: Cache, t: Tree, e: Event) {
    var (c', outcome) := Apply(c, e);
    match TreeStep(t, e)
    case None => outcome.Failed? && c' == c
    case Some(t') => outcome.Done? && Refines(c'.rows, t') && Shaped(t')
  }

  // ---------- small facts ----------

  lemma ChildMeansDir(t: Tree, p: Path, child: Path)
    requires Shaped(t) && p in t && child in t && p < child && |child| == |p| + 1
    ensures t[p].Dir?
  {
    assert ParentIsDir(t, child) && Parent(child) == p;
  }

  lemma FileIsLeaf(rows: Rows, t: Tree, p: Path)
    requires ParentsNamed(rows) && rows.Keys == t.Keys && Shaped(t) && p in t && t[p].File?
    ensures forall q :: q in t ==> !(p < q)
  {
    forall q | q in t
      ensures !(p < q)
    {
      if p < q {
        var child := q[..|p| + 1];
        AncestorsPresent(rows, q, child);
        ChildMeansDir(t, p, child);
      }
    }
  }

  lemma AbsentIsLeaf(rows: Rows, t: Tree, p: Path)
    requires ParentsNamed(rows) && rows.Keys == t.Keys && p !in t && p != []
    ensures forall q :: q in t ==> !(p < q)
  {
    forall q | q in t
      ensures !(p < q)
    {
      if p < q {
        AncestorsPresent(rows, q, p);
      }
    }
  }

  lemma WalkInv(c: Cache, leaf: Path, delta: int, mtime: int)
    requires Inv(c)
    ensures Inv(WalkedUp(c, leaf, delta, mtime))
  {
    TouchIds(c.rows, leaf, delta, mtime, c.clock);
    TouchParents(c.rows, leaf, delta, mtime, c.clock);
    var c' := WalkedUp(c, leaf, delta, mtime);
    forall p | p in c'.rows
      ensures RowOk(c', p)
    {
      assert RowOk(c, p);
    }
  }

  lemma TouchIds(rows: Rows, leaf: Path, delta: int, mtime: int, clock: nat)
    requires IdsUnique(rows)
    ensures IdsUnique(Touched(rows, leaf, delta, mtime, clock))
  {
    var rows' := Touched(rows, leaf, delta, mtime, clock);
    forall p, q | p in rows' && q in rows'
      ensures OneRowPerId(rows', p, q)
    {
      assert OneRowPerId(rows, p, q);
    }
  }

  lemma TouchParents(rows: Rows, leaf: Path, delta: int, mtime: int, clock: nat)
    requires ParentsNamed(rows)
    ensures ParentsNamed(Touched(rows, leaf, delta, mtime, clock))
  {
    var rows' := Touched(rows, leaf, delta, mtime, clock);
    forall p | p in rows'
      ensures ParentNamed(rows', p)
    {
      assert ParentNamed(rows, p);
    }
  }

  // ---------- writes ----------

  // Once the parent resolves, the walk cannot fail: the row is stored and the chain updated.
  lemma PutTaken(c: Cache, path: Path, isDir: bool, size: nat, tag: nat, mtime: int) returns (row: Row)
    requires ParentsNamed(c.rows) && ResolveParent(c.rows, path).Ok?
    ensures row == NewRow(c, path, ResolveParent(c.rows, path).value, isDir, if isDir then 0 else size, Backend(tag),
                          mtime)
    ensures Put(c, path, isDir, size, tag, mtime) ==
            (WalkedUp(Inserted(c, path, row), path, row.size - OldSize(c.rows, path), mtime), Done)
  {
    ResolvedWalk(c.rows, path);
    row := NewRow(c, path, ResolveParent(c.rows, path).value, isDir, if isDir then 0 else size, Backend(tag), mtime);
  }

  lemma PutInv(c: Cache, path: StoragePath, isDir: bool, size: nat, tag: nat, mtime: int)
    requires Inv(c)
    ensures Inv(Put(c, path, isDir, size, tag, mtime).0)
  {
    if ResolveParent(c.rows, path).Ok? {
      var row := PutTaken(c, path, isDir, size, tag, mtime);
      InsertInv(c, path, row);
      WalkInv(Inserted(c, path, row), path, row.size - OldSize(c.rows, path), mtime);
    }
  }

  lemma InsertInv(c: Cache, path: StoragePath, row: Row)
    requires Inv(c) && ResolveParent(c.rows, path) == Ok(row.parent) && (row.etag.Drawn? ==> row.etag.n < c.clock)
    requires row.name == Basename(path) && row.fileid == (if path in c.rows then c.rows[path].fileid else c.nextId)
    ensures Inv(Inserted(c, path, row))
  {
    InsertIds(c, path, row);
    InsertParents(c.rows, path, row);
    var c' := Inserted(c, path, row);
    forall p | p in c'.rows
      ensures RowOk(c', p)
    {
      if p != path {
        assert RowOk(c, p);
      } else if path in c.rows {
        assert RowOk(c, path);
      }
    }
  }

  lemma InsertIds(c: Cache, path: Path, row: Row)
    requires IdsUnique(c.rows) && RowsOk(c)
    requires row.fileid == if path in c.rows then c.rows[path].fileid else c.nextId
    ensures IdsUnique(c.rows[path := row])
  {
    var rows := c.rows[path := row];
    forall p, q | p in rows && q in rows
      ensures OneRowPerId(rows, p, q)
    {
      assert p in c.rows && q in c.rows ==> OneRowPerId(c.rows, p, q);
      assert p in c.rows ==> RowOk(c, p);
      assert q in c.rows ==> RowOk(c, q);
    }
  }

  lemma InsertParents(rows: Rows, path: Path, row: Row)
    requires ParentsNamed(rows) && ResolveParent(rows, path) == Ok(row.parent)
    requires path in rows ==> row.fileid == rows[path].fileid
    ensures ParentsNamed(rows[path := row])
  {
    var rows' := rows[path := row];
    forall p | p in rows'
      ensures ParentNamed(rows', p)
    {
      if p != path {
        assert ParentNamed(rows, p);
      } else if path != [] {
        assert Parent(path) != path;
      }
    }
  }

  // Adding the same delta along the ancestor chain is what recomputation would do.
  lemma PutSizes(rows: Rows, t: Tree, path: Path, row: Row, n: Node, delta: int, mtime: int, clock: nat)
    requires Refines(rows, t) && forall q :: q in t ==> !(path < q)
    requires row.isDir == n.Dir? && row.size == Own(n) && delta == Own(n) - (if path in t then Own(t[path]) else 0)
    ensures Refines(Touched(rows[path := row], path, delta, mtime, clock), t[path := n])
  {
    var rows' := Touched(rows[path := row], path, delta, mtime, clock);
    var t' := t[path := n];
    assert rows'.Keys == t'.Keys;
    TotalLeaf(t, path);
    forall d | d in rows'
      ensures RowRight(rows', t', d)
    {
      TotalPut(t, path, n, d);
      if d != path {
        assert RowRight(rows, t, d);
        ProperPrefix(d, path);
      }
    }
  }

  lemma WrittenRefines(c: Cache, t: Tree, e: Event, fold: bool)
    requires e.Written? && Inv(c) && Refines(c.rows, t) && Shaped(t) && Admissible(fold, c, t, e)
    ensures StepGoal(c, t, e)
  {
    var p := e.path;
    if ResolveParent(c.rows, p).Ok? {
      LeafForWrite(c.rows, t, p);
      var row := PutTaken(c, p, false, e.size, e.tag, e.mtime);
      PutSizes(c.rows, t, p, row, File(e.size), e.size - OldSize(c.rows, p), e.mtime, c.clock);
      PutShaped(t, p, File(e.size));
    }
  }

  lemma LeafForWrite(rows: Rows, t: Tree, p: Path)
    requires ParentsNamed(rows) && Refines(rows, t) && Shaped(t) && p != [] && (p in t ==> t[p].File?)
    ensures forall q :: q in t ==> !(p < q)
    ensures OldSize(rows, p) == if p in t then Own(t[p]) else 0
  {
    if p in t {
      FileIsLeaf(rows, t, p);
      TotalLeaf(t, p);
      assert RowRight(rows, t, p);
    } else {
      AbsentIsLeaf(rows, t, p);
    }
  }

  lemma DirCreatedRefines(c: Cache, t: Tree, e: Event, fold: bool)
    requires e.DirCreated? && Inv(c) && Refines(c.rows, t) && Shaped(t) && Admissible(fold, c, t, e)
    ensures StepGoal(c, t, e)
  {
    var p := e.path;
    if ResolveParent(c.rows, p).Ok? {
      var row := PutTaken(c, p, true, 0, e.tag, e.mtime);
      if p == [] {
        RootSizes(c.rows, t, row, e.mtime, c.clock);
      } else {
        AbsentIsLeaf(c.rows, t, p);
        PutSizes(c.rows, t, p, row, Dir, 0, e.mtime, c.clock);
      }
      PutShaped(t, p, Dir);
    }
  }

  // A lazily created root row is right exactly when the storage holds no bytes yet.
  lemma RootSizes(rows: Rows, t: Tree, row: Row, mtime: int, clock: nat)
    requires Refines(rows, t) && [] !in t && row.isDir && row.size == 0
    ensures Refines(Touched(rows[[] := row], [], 0, mtime, clock), t[[] := Dir]) <==> Total(t, []) == 0
  {
    var rows' := Touched(rows[[] := row], [], 0, mtime, clock);
    var t' := t[[] := Dir];
    assert rows'.Keys == t'.Keys;
    TotalPut(t, [], Dir, []);
    forall d | d in rows' && d != []
      ensures RowRight(rows', t', d)
    {
      TotalPut(t, [], Dir, d);
      assert RowRight(rows, t, d);
    }
    assert RowRight(rows', t', []) <==> Total(t, []) == 0;
  }

  lemma PutShaped(t: Tree, p: Path, n: Node)
    requires Shaped(t) && ParentIsDir(t, p)
    requires n.Dir? || forall q :: q in t ==> !(p < q)
    ensures Shaped(t[p := n])
  {
    var t' := t[p := n];
    forall q | q in t'
      ensures ParentIsDir(t', q)
    {
      assert q in t ==> ParentIsDir(t, q);
      assert q != [] ==> Parent(q) < q;
    }
  }

  // ---------- deletion ----------

  lemma DeletedRefines(c: Cache, t: Tree, e: Event, fold: bool)
    requires e.Deleted? && Inv(c) && Refines(c.rows, t) && Shaped(t) && Admissible(fold, c, t, e)
    ensures StepGoal(c, t, e)
  {
    var d := e.path;
    if d in c.rows {
      RemainingRows(c, t, d);
      RemainingWalk(c, d);
      var rows' := Delete(c, d, e.now).0.rows;
      var t' := Remove(t, d);
      assert rows'.Keys == t'.Keys;
      forall p | p in rows'
        ensures RowRight(rows', t', p)
      {
        TotalRemove(t, d, p);
        assert RowRight(c.rows, t, p) && RowRight(c.rows, t, d);
        ProperPrefix(p, d);
      }
      RemoveShaped(t, d);
    }
  }

  lemma RemoveShaped(t: Tree, d: Path)
    requires Shaped(t)
    ensures Shaped(Remove(t, d))
  {
    forall p | p in Remove(t, d)
      ensures ParentIsDir(Remove(t, d), p)
    {
      assert ParentIsDir(t, p);
    }
  }

  lemma RemainingRows(c: Cache, t: Tree, d: Path)
    requires Inv(c) && d in c.rows && c.rows.Keys == t.Keys
    requires d == [] ==> forall q :: q in c.rows && |q| == 1 ==> c.rows[q].parent.Some?
    ensures Cascaded(c.rows, c.rows[d].fileid) == map p | p in c.rows && !(d <= p) :: c.rows[p]
    ensures Cascaded(c.rows, c.rows[d].fileid).Keys == Remove(t, d).Keys
  {
    if d == [] {
      CascadeRootIff(c);
    } else {
      CascadeBelowNonRoot(c, d);
    }
  }

  lemma RemainingWalk(c: Cache, d: Path)
    requires Inv(c) && d in c.rows
    ensures FirstMissing(Cascaded(c.rows, c.rows[d].fileid), d) == None
  {
    CascadeIsSubtree(c, d);
    forall a | a < d && a != []
      ensures a in Cascaded(c.rows, c.rows[d].fileid)
    {
      AncestorsPresent(c.rows, d, a);
    }
    WalkFindsAll(Cascaded(c.rows, c.rows[d].fileid), d);
  }

  lemma DeleteInv(c: Cache, path: Path, now: int)
    requires Inv(c)
    ensures Inv(Delete(c, path, now).0)
  {
    if path in c.rows {
      var c1 := c.(rows := Cascaded(c.rows, c.rows[path].fileid));
      CascadeIds(c, path);
      CascadeParents(c, path);
      RemainingWalk(c, path);
      WalkInv(c1, path, -c.rows[path].size, now);
    }
  }

  lemma CascadeIds(c: Cache, path: Path)
    requires IdsUnique(c.rows) && RowsOk(c) && path in c.rows
    ensures IdsUnique(Cascaded(c.rows, c.rows[path].fileid))
    ensures RowsOk(c.(rows := Cascaded(c.rows, c.rows[path].fileid)))
  {
    var c1 := c.(rows := Cascaded(c.rows, c.rows[path].fileid));
    forall p, q | p in c1.rows && q in c1.rows
      ensures OneRowPerId(c1.rows, p, q)
    {
      assert OneRowPerId(c.rows, p, q);
    }
    forall p | p in c1.rows
      ensures RowOk(c1, p)
    {
      assert RowOk(c, p);
    }
  }

  lemma CascadeParents(c: Cache, path: Path)
    requires Inv(c) && path in c.rows
    ensures ParentsNamed(Cascaded(c.rows, c.rows[path].fileid))
  {
    CascadeIsSubtree(c, path);
    var rows := Cascaded(c.rows, c.rows[path].fileid);
    forall p | p in rows
      ensures ParentNamed(rows, p)
    {
      assert ParentNamed(c.rows, p);
      if p != [] && c.rows[p].parent.Some? && Doomed(c.rows, path, Parent(p)) {
        DoomedParent(c.rows, path, p);
      }
    }
  }

  // A row whose parent is removed is removed too.
  lemma DoomedParent(rows: Rows, d: Path, p: Path)
    requires p in rows && p != [] && rows[p].parent.Some? && Doomed(rows, d, Parent(p))
    ensures Doomed(rows, d, p)
  {
    var q := Parent(p);
    assert d <= p by { assert p[..|d|] == q[..|d|]; }
    if q != [] {
      assert q[..1] == p[..1];
    } else {
      assert p[..1] == p;
    }
  }

  // ---------- copies ----------

  lemma CopyInv(c: Cache, from: StoragePath, to: StoragePath, now: int)
    requires Inv(c)
    ensures Inv(Copy(c, from, to, now).0)
  {
    if ResolveParent(c.rows, to).Ok? && from in c.rows && to !in c.rows {
      ResolvedWalk(c.rows, to);
      var c1 := c.(clock := c.clock + 1);
      ClockInv(c, c1);
      var src := c.rows[from];
      var row := NewRow(c1, to, ResolveParent(c.rows, to).value, src.isDir, src.size, Drawn(c.clock), now);
      InsertInv(c1, to, row);
      WalkInv(Inserted(c1, to, row), to, src.size, now);
    }
  }

  lemma ClockInv(c: Cache, c1: Cache)
    requires Inv(c) && c1 == c.(clock := c1.clock) && c.clock <= c1.clock
    ensures Inv(c1)
  {
    forall p | p in c.rows
      ensures RowOk(c1, p)
    {
      assert RowOk(c, p);
    }
  }

  lemma CopiedRefines(c: Cache, t: Tree, e: Event, fold: bool)
    requires e.Copied? && Inv(c) && Refines(c.rows, t) && Shaped(t) && Admissible(fold, c, t, e)
    ensures StepGoal(c, t, e)
  {
    var from, to := e.from, e.to;
    if ResolveParent(c.rows, to).Ok? && from in c.rows && to !in c.rows {
      ResolvedWalk(c.rows, to);
      FileIsLeaf(c.rows, t, from);
      TotalLeaf(t, from);
      assert RowRight(c.rows, t, from);
      AbsentIsLeaf(c.rows, t, to);
      var src := c.rows[from];
      var row := NewRow(c, to, ResolveParent(c.rows, to).value, src.isDir, src.size, Drawn(c.clock), e.now);
      PutSizes(c.rows, t, to, row, t[from], src.size, e.now, c.clock + 1);
      PutShaped(t, to, t[from]);
    }
  }

  // ---------- moves ----------

  // Where a row of the old table goes.
  lemma Arrives(rows: Rows, from: Path, to: Path, pid: Option<nat>, q: Path)
    requires Vacant(rows.Keys, to) && q in rows
    ensures Subst(from, to, q) in Relocated(rows, from, to, pid) && Subst(to, from, Subst(from, to, q)) == q
  {
    SubstInverse(rows.Keys, from, to, q);
  }

  // Where a row of the new table came from: a row outside the target has not moved.
  lemma Origin(rows: Rows, from: Path, to: Path, pid: Option<nat>, p: Path)
    requires Vacant(rows.Keys, to) && p in Relocated(rows, from, to, pid)
    ensures Subst(to, from, p) in rows && Subst(from, to, Subst(to, from, p)) == p
    ensures to <= p ==> from <= Subst(to, from, p)
    ensures to < p ==> from < Subst(to, from, p)
    ensures !(to <= p) ==> Subst(to, from, p) == p && !(from <= p)
  {
    var q :| q in rows && Subst(from, to, q) == p;
    SubstInverse(rows.Keys, from, to, q);
    SubstFacts(to, from, p);
    SubstFacts(from, to, q);
  }

  lemma SubstParent(from: Path, to: Path, p: Path)
    requires from < p
    ensures from <= Parent(p) && Subst(from, to, p) != []
    ensures Subst(from, to, Parent(p)) == Parent(Subst(from, to, p))
    ensures Basename(Subst(from, to, p)) == Basename(p)
  {
    var r := p[|from|..];
    assert Parent(p)[|from|..] == r[..|r| - 1];
    assert to + r[..|r| - 1] == (to + r)[..|to + r| - 1];
  }

  lemma RelocatedParents(c: Cache, from: Path, to: Path, pid: Option<nat>, p: Path)
    requires ParentsNamed(c.rows) && from in c.rows && to != [] && Vacant(c.rows.Keys, to) && !(from <= to)
    requires ResolveParent(c.rows, to) == Ok(pid)
    requires p in Relocated(c.rows, from, to, pid)
    ensures ParentNamed(Relocated(c.rows, from, to, pid), p)
  {
    var rows := Relocated(c.rows, from, to, pid);
    Origin(c.rows, from, to, pid, p);
    var q := Subst(to, from, p);
    assert ParentNamed(c.rows, q);
    if p == to {
      if pid.Some? {
        ParentOutside(from, to);
        Stays(c.rows, from, to, pid, Parent(to));
      }
    } else if to <= p {
      SubstParent(to, from, p);
      SubstParent(from, to, q);
      Arrives(c.rows, from, to, pid, Parent(q));
    } else if p != [] && c.rows[p].parent.Some? {
      ParentOutside(from, p);
      Stays(c.rows, from, to, pid, Parent(p));
    }
  }

  lemma ParentOutside(from: Path, p: Path)
    requires !(from <= p) && p != []
    ensures !(from <= Parent(p))
  {
  }

  lemma Stays(rows: Rows, from: Path, to: Path, pid: Option<nat>, a: Path)
    requires Vacant(rows.Keys, to) && a in rows && !(from <= a)
    ensures a in Relocated(rows, from, to, pid) && Relocated(rows, from, to, pid)[a] == rows[a]
  {
    Arrives(rows, from, to, pid, a);
  }

  lemma RelocatedRowOk(c: Cache, from: StoragePath, to: StoragePath, pid: Option<nat>, p: Path)
    requires RowsOk(c) && to != [] && Vacant(c.rows.Keys, to) && !Overlong(c.rows, from, to)
    requires p in Relocated(c.rows, from, to, pid)
    ensures RowOk(c.(rows := Relocated(c.rows, from, to, pid)), p)
  {
    Origin(c.rows, from, to, pid, p);
    var q := Subst(to, from, p);
    assert RowOk(c, q);
    if to < p {
      SubstParent(to, from, p);
      LegalSubst(from, to, q);
    } else if p != to {
      ProperPrefix(to, p);
    }
  }

  lemma LegalSubst(from: Path, to: Path, q: Path)
    requires LegalPath(q) && LegalPath(to)
    ensures LegalPath(Subst(from, to, q))
  {
  }

  lemma RelocatedIds(rows: Rows, from: Path, to: Path, pid: Option<nat>)
    requires IdsUnique(rows) && Vacant(rows.Keys, to)
    ensures IdsUnique(Relocated(rows, from, to, pid))
  {
    var rows' := Relocated(rows, from, to, pid);
    forall p, q | p in rows' && q in rows'
      ensures OneRowPerId(rows', p, q)
    {
      Origin(rows, from, to, pid, p);
      Origin(rows, from, to, pid, q);
      assert OneRowPerId(rows, Subst(to, from, p), Subst(to, from, q));
    }
  }

  lemma RelocatedInv(c: Cache, from: StoragePath, to: StoragePath, pid: Option<nat>)
    requires Inv(c) && from in c.rows && to != [] && Vacant(c.rows.Keys, to) && !(from <= to)
    requires ResolveParent(c.rows, to) == Ok(pid) && !Overlong(c.rows, from, to)
    ensures Inv(c.(rows := Relocated(c.rows, from, to, pid)))
  {
    var c' := c.(rows := Relocated(c.rows, from, to, pid));
    RelocatedIds(c.rows, from, to, pid);
    forall p | p in c'.rows
      ensures ParentNamed(c'.rows, p)
    {
      RelocatedParents(c, from, to, pid, p);
    }
    forall p | p in c'.rows
      ensures RowOk(c', p)
    {
      RelocatedRowOk(c, from, to, pid, p);
    }
  }

  lemma MoveInv(c: Cache, from: StoragePath, to: StoragePath, now: int)
    requires Inv(c) && to != [] && !(from <= to)
    ensures Inv(Move(c, from, to, now).0)
  {
    if Move(c, from, to, now).1.Done? {
      var pid := ResolveParent(c.rows, to).value;
      NothingBelowVacant(c.rows, to);
      RelocatedInv(c, from, to, pid);
      ShiftedInv(c.(rows := Relocated(c.rows, from, to, pid)), from, to, c.rows[from].size, now);
    }
  }

  lemma ShiftedInv(c: Cache, from: Path, to: Path, size: int, now: int)
    requires Inv(c)
    ensures Inv(Shifted(c, from, to, size, now))
  {
    if from != [] && to != [] && Parent(from) == Parent(to) {
      WalkInv(c, to, 0, now);
    } else {
      WalkInv(c, from, -size, now);
      WalkInv(WalkedUp(c, from, -size, now), to, size, now);
    }
  }

  lemma MovedSizes(c: Cache, t: Tree, from: Path, to: Path, pid: Option<nat>, now: int)
    requires ParentsNamed(c.rows) && Refines(c.rows, t) && from in c.rows && from != [] && to != [] && to !in c.rows
    requires !(from <= to) && Vacant(t.Keys, to)
    ensures
      var c1 := c.(rows := Relocated(c.rows, from, to, pid));
      Refines(Shifted(c1, from, to, c.rows[from].size, now).rows, Rename(t, from, to))
  {
    var c1 := c.(rows := Relocated(c.rows, from, to, pid));
    var rows' := Shifted(c1, from, to, c.rows[from].size, now).rows;
    var t' := Rename(t, from, to);
    assert c1.rows.Keys == t'.Keys;
    ShiftedKeys(c1, from, to, c.rows[from].size, now);
    forall p | p in rows'
      ensures RowRight(rows', t', p)
    {
      MovedRowRight(c, t, from, to, pid, now, p);
    }
  }

  lemma MovedRowRight(c: Cache, t: Tree, from: Path, to: Path, pid: Option<nat>, now: int, p: Path)
    requires ParentsNamed(c.rows) && Refines(c.rows, t) && from in c.rows && from != [] && to != [] && to !in c.rows
    requires !(from <= to) && Vacant(t.Keys, to) && p in Relocated(c.rows, from, to, pid) && p in Rename(t, from, to)
    requires p in Shifted(c.(rows := Relocated(c.rows, from, to, pid)), from, to, c.rows[from].size, now).rows
    ensures RowRight(Shifted(c.(rows := Relocated(c.rows, from, to, pid)), from, to, c.rows[from].size, now).rows,
                     Rename(t, from, to), p)
  {
    MovedSize(c, t, from, to, pid, now, p);
    ShiftedRow(c.(rows := Relocated(c.rows, from, to, pid)), from, to, c.rows[from].size, now, p);
  }

  lemma ShiftedKeys(c: Cache, from: Path, to: Path, size: int, now: int)
    ensures Shifted(c, from, to, size, now).rows.Keys == c.rows.Keys
  {
  }

  // What the two walks do to one row.
  lemma ShiftedRow(c: Cache, from: Path, to: Path, size: int, now: int, p: Path)
    requires from != [] && to != [] && p in c.rows
    ensures p in Shifted(c, from, to, size, now).rows
    ensures
      var row, row' := c.rows[p], Shifted(c, from, to, size, now).rows[p];
      && row' == row.(size := row'.size, etag := row'.etag, mtime := row'.mtime)
      && row'.size == row.size - (if p < from then size else 0) + (if p < to then size else 0)
      && (if p < from || p < to then row'.etag.Drawn? && row'.etag.n >= c.clock && row'.mtime == now
          else row'.etag == row.etag && row'.mtime == row.mtime)
  {
    if Parent(from) == Parent(to) {
      BelowParent(from, p);
      BelowParent(to, p);
    }
  }

  lemma MovedSize(c: Cache, t: Tree, from: Path, to: Path, pid: Option<nat>, now: int, p: Path)
    requires ParentsNamed(c.rows) && Refines(c.rows, t) && from in c.rows && from != [] && to != [] && to !in c.rows
    requires !(from <= to) && Vacant(t.Keys, to) && p in Relocated(c.rows, from, to, pid) && p in Rename(t, from, to)
    ensures
      var row, size := Relocated(c.rows, from, to, pid)[p], c.rows[from].size;
      && (row.isDir <==> Rename(t, from, to)[p].Dir?)
      && row.size - (if p < from then size else 0) + (if p < to then size else 0) == Total(Rename(t, from, to), p)
  {
    Origin(c.rows, from, to, pid, p);
    assert RowRight(c.rows, t, from) && RowRight(c.rows, t, Subst(to, from, p));
    TotalRename(t, from, to, p);
    if to <= p {
      if p < from {
        AncestorsPresent(c.rows, from, to);
      }
      SubstFacts(to, from, p);
    }
  }

  lemma BelowParent(x: Path, p: Path)
    requires x != []
    ensures p < x <==> p <= Parent(x)
  {
  }

  lemma RenameShaped(rows: Rows, t: Tree, from: Path, to: Path)
    requires Shaped(t) && Vacant(t.Keys, to) && to != [] && from in t && !(from <= to) && ParentIsDir(t, to)
    ensures Shaped(Rename(t, from, to))
  {
    var t' := Rename(t, from, to);
    forall p | p in t'
      ensures ParentIsDir(t', p)
    {
      if p != [] && Parent(p) in t' {
        RenameOrigin(t, from, to, p);
        RenameOrigin(t, from, to, Parent(p));
        assert ParentIsDir(t, Subst(to, from, p));
        if to < p {
          SubstParent(to, from, p);
        } else if p == to {
          assert !(to <= Parent(to));
        } else {
          ParentOutside(to, p);
        }
      }
    }
  }

  lemma RenameOrigin(t: Tree, from: Path, to: Path, p: Path)
    requires Vacant(t.Keys, to) && p in Rename(t, from, to)
    ensures Subst(to, from, p) in t && Rename(t, from, to)[p] == t[Subst(to, from, p)]
    ensures !(to <= p) ==> Subst(to, from, p) == p
  {
  }

  lemma MovedRefines(c: Cache, t: Tree, e: Event, fold: bool)
    requires e.Moved? && Inv(c) && Refines(c.rows, t) && Shaped(t) && Admissible(fold, c, t, e)
    ensures StepGoal(c, t, e)
  {
    var from, to := e.from, e.to;
    if ResolveParent(c.rows, to).Ok? && from in c.rows && to !in c.rows && !Overlong(c.rows, from, to) {
      NothingBelowVacant(c.rows, to);
      MovedSizes(c, t, from, to, ResolveParent(c.rows, to).value, e.now);
      RenameShaped(c.rows, t, from, to);
    }
  }

  // ---------- one step and whole runs ----------

  lemma StepRefines(fold: bool, c: Cache, t: Tree, e: Event)
    requires Inv(c) && Refines(c.rows, t) && Shaped(t) && Admissible(fold, c, t, e)
    ensures Inv(Apply(c, e).0) && StepGoal(c, t, e)
  {
    match e
    case Written(path, size, tag, mtime) =>
      PutInv(c, path, false, size, tag, mtime);
      WrittenRefines(c, t, e, fold);
    case DirCreated(path, tag, mtime) =>
      PutInv(c, path, true, 0, tag, mtime);
      DirCreatedRefines(c, t, e, fold);
    case Deleted(path, now) =>
      DeleteInv(c, path, now);
      DeletedRefines(c, t, e, fold);
    case Moved(from, to, now) =>
      MoveInv(c, from, to, now);
      MovedRefines(c, t, e, fold);
    case Copied(from, to, now) =>
      CopyInv(c, from, to, now);
      CopiedRefines(c, t, e, fold);
  }

  // ---------- whole runs ----------

  // One run of events, with the plain tree taking the accepted ones.
  ghost function RunCache(c: Cache, es: seq<Event>): Cache
    decreases |es|
  {
    if es == [] then c else RunCache(Apply(c, es[0]).0, es[1..])
  }

  function TreeAfter(t: Tree, e: Event): Tree {
    match TreeStep(t, e)
    case None => t
    case Some(t') => t'
  }

  function RunTree(t: Tree, es: seq<Event>): Tree
    decreases |es|
  {
    if es == [] then t else RunTree(TreeAfter(t, es[0]), es[1..])
  }

  // Every event of the run is admissible where it happens.
  ghost predicate AdmissibleRun(fold: bool, c: Cache, t: Tree, es: seq<Event>)
    decreases |es|
  {
    es == [] ||
    (Admissible(fold, c, t, es[0]) &&
     AdmissibleRun(fold, Apply(c, es[0]).0, TreeAfter(t, es[0]), es[1..]))
  }

  // After any admissible run every directory row's size is the total of the file sizes
  // below it in the plain tree, and is never negative.
  lemma {:induction false} RunRefines(fold: bool, c: Cache, t: Tree, es: seq<Event>)
    requires Inv(c) && Refines(c.rows, t) && Shaped(t) && AdmissibleRun(fold, c, t, es)
    ensures Inv(RunCache(c, es)) && Refines(RunCache(c, es).rows, RunTree(t, es)) && Shaped(RunTree(t, es))
    ensures forall p :: p in RunCache(c, es).rows ==>
              RunCache(c, es).rows[p].size == Total(RunTree(t, es), p) && RunCache(c, es).rows[p].size >= 0
    decreases |es|
  {
    if es == [] {
      SizesFromTree(c.rows, t);
    } else {
      StepRefines(fold, c, t, es[0]);
      RunRefines(fold, Apply(c, es[0]).0, TreeAfter(t, es[0]), es[1..]);
    }
  }

  lemma SizesFromTree(rows: Rows, t: Tree)
    requires Refines(rows, t)
    ensures forall p :: p in rows ==> rows[p].size == Total(t, p) && rows[p].size >= 0
  {
    forall p | p in rows
      ensures rows[p].size == Total(t, p) && rows[p].size >= 0
    {
      assert RowRight(rows, t, p);
      TotalNonNegative(t, p);
    }
  }

  // ---------- exactly when an event outside the conditions still fits ----------

  // Creating a directory that is already cached: that row and the chain above it come out
  // short by exactly the size the row had, and no other row is affected.
  lemma RecreatedDirectoryShortfall(c: Cache, t: Tree, path: Path, tag: nat, mtime: int)
    requires Inv(c) && Refines(c.rows, t) && path in t && t[path].Dir? && ResolveParent(c.rows, path).Ok?
    ensures
      var (c', outcome) := Put(c, path, true, 0, tag, mtime);
      && outcome.Done? && c'.rows.Keys == t.Keys
      && forall q :: q in t ==> c'.rows[q].size == Total(t, q) - (if q <= path then c.rows[path].size else 0)
  {
    var row := PutTaken(c, path, true, 0, tag, mtime);
    forall q | q in t
      ensures Put(c, path, true, 0, tag, mtime).0.rows[q].size ==
              Total(t, q) - (if q <= path then c.rows[path].size else 0)
    {
      ShortfallAt(c, t, path, tag, mtime, q);
    }
  }

  lemma ShortfallAt(c: Cache, t: Tree, path: Path, tag: nat, mtime: int, q: Path)
    requires Inv(c) && Refines(c.rows, t) && path in t && t[path].Dir? && ResolveParent(c.rows, path).Ok? && q in t
    ensures q in Put(c, path, true, 0, tag, mtime).0.rows
    ensures Put(c, path, true, 0, tag, mtime).0.rows[q].size ==
              Total(t, q) - (if q <= path then c.rows[path].size else 0)
  {
    var row := PutTaken(c, path, true, 0, tag, mtime);
    assert RowRight(c.rows, t, q);
    if q != path {
      ProperPrefix(q, path);
    }
  }

  // So re-creating a cached directory keeps the cache right exactly when its size was zero.
  lemma RecreatedDirectoryIff(c: Cache, t: Tree, path: Path, tag: nat, mtime: int)
    requires Inv(c) && Refines(c.rows, t) && path in t && t[path].Dir? && ResolveParent(c.rows, path).Ok?
    ensures Refines(Put(c, path, true, 0, tag, mtime).0.rows, t) <==> c.rows[path].size == 0
  {
    RecreatedDirectoryShortfall(c, t, path, tag, mtime);
    var rows' := Put(c, path, true, 0, tag, mtime).0.rows;
    assert RowRight(rows', t, path) ==> c.rows[path].size == 0;
    if c.rows[path].size == 0 {
      var row := PutTaken(c, path, true, 0, tag, mtime);
      forall q | q in rows'
        ensures RowRight(rows', t, q)
      {
        assert RowRight(c.rows, t, q);
      }
    }
  }

  // A copy inserts the top row only, so the cached paths match the copied subtree exactly
  // when nothing lies below the source.
  lemma CopiedDirectoryIff(c: Cache, t: Tree, from: StoragePath, to: StoragePath, now: int)
    requires Inv(c) && c.rows.Keys == t.Keys && Copy(c, from, to, now).1.Done?
    requires to != [] && !(from <= to)
    ensures
      Copy(c, from, to, now).0.rows.Keys == t.Keys + (set p | p in t && from <= p :: Subst(from, to, p)) <==>
      forall p :: p in t ==> !(from < p)
  {
    NothingBelowVacant(c.rows, to);
    var keys := Copy(c, from, to, now).0.rows.Keys;
    var whole := t.Keys + (set p | p in t && from <= p :: Subst(from, to, p));
    assert keys == t.Keys + {to};
    if p :| p in t && from < p {
      SubstFacts(from, to, p);
      assert Subst(from, to, p) in whole && Subst(from, to, p) !in keys;
    } else {
      forall p | p in t && from <= p
        ensures Subst(from, to, p) == to
      {
        if p != from {
          ProperPrefix(from, p);
        }
      }
      assert Subst(from, to, from) in whole && Subst(from, to, from) == to;
    }
  }

  // Deleting the root row leaves the plain tree's answer exactly when no top-level row
  // predates the root row.
  lemma DeletedRootIff(c: Cache, now: int)
    requires Inv(c) && [] in c.rows
    ensures Delete(c, [], now).0.rows == map[] <==>
            forall p :: p in c.rows && |p| == 1 ==> c.rows[p].parent.Some?
  {
    CascadeRootIff(c);
    var rows := Cascaded(c.rows, c.rows[[]].fileid);
    assert Delete(c, [], now).0.rows.Keys == rows.Keys;
  }
}
