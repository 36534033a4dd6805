// What a run of the trash service keeps: every row names its tree, the tree is the one that
// was deleted, and restoring brings back exactly that tree.
module TrashRuns {
  import opened Wrappers
  import opened StoragePaths
  import opened PlainTree
  import opened Sums
  import opened Disks
  import opened TreeCopy
  import opened TrashNames
  import opened TrashSpec

  predicate InBin(p: Path) {
    |p| >= 4 && BinDir(p[0]) < p
  }

  // Every row names a place of its own.
  ghost predicate Held(b: Bin) {
    && Closed(b.es)
    && (forall id {:trigger RowHeld(b, id)} :: id in b.rows ==> RowHeld(b, id))
    && (forall i, j :: i in b.rows && j in b.rows && RowPath(b.rows[i]) == RowPath(b.rows[j]) ==> i == j)
  }

  ghost predicate RowHeld(b: Bin, id: nat)
    requires id in b.rows
  {
    id < b.nextId && '.' !in b.rows[id].suffix
  }

  ghost predicate NoneMissing(b: Bin) {
    forall id {:trigger Present(b, id)} :: id in b.rows ==> Present(b, id)
  }

  ghost predicate Present(b: Bin, id: nat) {
    id in b.rows && RowPath(b.rows[id]) in b.es
  }

  // Conversely every entry of a trashbin is named by a row.
  ghost predicate NoOrphans(b: Bin) {
    forall p {:trigger Named(b, p)} :: p in b.es && InBin(p) && |p| == 4 ==> Named(b, p)
  }

  ghost predicate Named(b: Bin, p: Path) {
    exists id :: id in b.rows && RowPath(b.rows[id]) == p
  }

  // Trashbins other than at `d` are as they were.
  ghost predicate SameBins(es: Entries, es': Entries, d: Path) {
    forall p :: InBin(p) && !(d <= p) ==> (p in es <==> p in es') && (p in es && p in es' ==> es[p] == es'[p])
  }

  ghost predicate RowKept(b: Bin, b': Bin, id: nat) {
    && id in b.rows && id in b'.rows && b'.rows[id] == b.rows[id]
    && SameTree(b.es, RowPath(b.rows[id]), b'.es, RowPath(b.rows[id]))
  }

  // ---------- rows and places ----------

  lemma RowPathIs(e: TrashEntry, d: TrashEntry)
    requires '.' !in e.suffix && '.' !in d.suffix
    ensures RowPath(e) == RowPath(d) <==> e.user == d.user && e.basename == d.basename && e.suffix == d.suffix
    ensures InBin(RowPath(e)) && |RowPath(e)| == 4 && Parent(RowPath(e)) == BinDir(e.user)
  {
    if RowPath(e) == RowPath(d) {
      assert RowPath(e)[0] == e.user && RowPath(d)[0] == d.user;
      assert RowPath(e)[3] == TrashName(e.basename, e.suffix) && RowPath(d)[3] == TrashName(d.basename, d.suffix);
      TrashNameInjective(e.basename, e.suffix, d.basename, d.suffix);
    }
  }

  // A place in the trashbin is free exactly if no row has its user, name and suffix.
  lemma FreeIff(b: Bin, e: TrashEntry)
    requires Held(b) && NoneMissing(b) && NoOrphans(b) && '.' !in e.suffix
    ensures RowFree(b.rows, e) <==> RowPath(e) !in b.es
  {
    RowPathIs(e, e);
    if !RowFree(b.rows, e) {
      var id :| id in b.rows && b.rows[id].user == e.user && b.rows[id].basename == e.basename &&
        b.rows[id].suffix == e.suffix;
      assert Present(b, id) && RowPath(b.rows[id]) == RowPath(e);
    }
    if RowPath(e) in b.es {
      assert Named(b, RowPath(e));
      var id :| id in b.rows && RowPath(b.rows[id]) == RowPath(e);
      assert RowHeld(b, id);
      RowPathIs(b.rows[id], e);
    }
  }

  lemma VacantAt(es: Entries, p: Path)
    requires Closed(es) && p !in es
    ensures Vacant(es.Keys, p)
  {
    forall q | q in es.Keys
      ensures !(p <= q)
    {
      if p <= q {
        AncestorInDisk(es, q, p);
      }
    }
  }

  // Two rows at different places hold disjoint trees.
  lemma PlacesApart(e: TrashEntry, d: TrashEntry, p: Path)
    requires RowPath(e) != RowPath(d)
    ensures !(RowPath(e) <= p && RowPath(d) <= p)
  {
    assert |RowPath(e)| == |RowPath(d)| == 4;
  }

  lemma KeptOutside(b: Bin, b': Bin, id: nat, e: TrashEntry)
    requires SameBins(b.es, b'.es, RowPath(e)) && id in b.rows && id in b'.rows && b'.rows[id] == b.rows[id]
    requires RowPath(b.rows[id]) != RowPath(e)
    ensures RowKept(b, b', id)
  {
    var at := RowPath(b.rows[id]);
    forall r: Path
      ensures SameEntry(b.es, at, b'.es, at, r)
    {
      PlacesApart(b.rows[id], e, at + r);
      assert (at + r)[0] == at[0] && BinDir(at[0]) < at + r;
    }
  }

  lemma KeptPresent(b: Bin, b': Bin, id: nat)
    requires RowKept(b, b', id)
    ensures Present(b, id) <==> Present(b', id)
  {
    assert SameEntry(b.es, RowPath(b.rows[id]), b'.es, RowPath(b.rows[id]), []);
    assert RowPath(b.rows[id]) + [] == RowPath(b.rows[id]);
  }

  // ---------- one more row ----------

  lemma RecordedKept(b: Bin, es: Entries, e: TrashEntry, id: nat)
    requires Held(b) && RowFree(b.rows, e) && '.' !in e.suffix && SameBins(b.es, es, RowPath(e)) && id in b.rows
    ensures RowPath(b.rows[id]) != RowPath(e)
    ensures RowKept(b, Bin(es, b.rows, b.nextId), id)
    ensures RowKept(b, Recorded(b, es, e), id)
  {
    assert RowHeld(b, id);
    RowPathIs(b.rows[id], e);
    KeptOutside(b, Recorded(b, es, e), id, e);
    KeptOutside(b, Bin(es, b.rows, b.nextId), id, e);
  }

  lemma RecordedHeld(b: Bin, es: Entries, e: TrashEntry)
    requires Held(b) && RowFree(b.rows, e) && '.' !in e.suffix && Closed(es)
    ensures Held(Recorded(b, es, e))
  {
    var b' := Recorded(b, es, e);
    forall id | id in b.rows
      ensures RowHeld(b', id) && id < b.nextId && RowPath(b.rows[id]) != RowPath(e)
    {
      assert RowHeld(b, id);
      RowPathIs(b.rows[id], e);
    }
  }

  lemma RecordedMatched(b: Bin, es: Entries, e: TrashEntry)
    requires Held(b) && NoneMissing(b) && NoOrphans(b) && RowFree(b.rows, e) && '.' !in e.suffix
    requires RowPath(e) in es && SameBins(b.es, es, RowPath(e))
    ensures NoneMissing(Recorded(b, es, e)) && NoOrphans(Recorded(b, es, e))
  {
    var b' := Recorded(b, es, e);
    forall id | id in b'.rows
      ensures Present(b', id)
    {
      if id in b.rows {
        assert Present(b, id) && RowHeld(b, id);
        RecordedKept(b, es, e, id);
        KeptPresent(b, b', id);
      }
    }
    forall p | p in es && InBin(p) && |p| == 4
      ensures Named(b', p)
    {
      if RowPath(e) <= p {
        assert p == RowPath(e) && b'.rows[b.nextId] == e;
      } else {
        assert Named(b, p);
        var id :| id in b.rows && RowPath(b.rows[id]) == p;
        assert RowHeld(b, id) && id in b'.rows && b'.rows[id] == b.rows[id];
      }
    }
  }

  // ---------- one row fewer ----------

  lemma DroppedKept(b: Bin, es: Entries, id: nat, j: nat)
    requires Held(b) && id in b.rows && SameBins(b.es, es, RowPath(b.rows[id])) && j in b.rows && j != id
    ensures RowKept(b, Bin(es, b.rows, b.nextId), j)
    ensures RowKept(b, Bin(es, b.rows - {id}, b.nextId), j)
  {
    KeptOutside(b, Bin(es, b.rows, b.nextId), j, b.rows[id]);
    KeptOutside(b, Bin(es, b.rows - {id}, b.nextId), j, b.rows[id]);
  }

  lemma DroppedMatched(b: Bin, es: Entries, id: nat)
    requires Held(b) && NoneMissing(b) && NoOrphans(b) && id in b.rows
    requires RowPath(b.rows[id]) !in es && SameBins(b.es, es, RowPath(b.rows[id]))
    ensures var b' := Bin(es, b.rows - {id}, b.nextId); NoneMissing(b') && NoOrphans(b')
  {
    var b' := Bin(es, b.rows - {id}, b.nextId);
    forall j | j in b'.rows
      ensures Present(b', j)
    {
      assert Present(b, j);
      DroppedKept(b, es, id, j);
      KeptPresent(b, b', j);
    }
    forall p | p in es && InBin(p) && |p| == 4
      ensures Named(b', p)
    {
      assert |RowPath(b.rows[id])| == 4 && p != RowPath(b.rows[id]);
      assert Named(b, p);
      var j :| j in b.rows && RowPath(b.rows[j]) == p;
      assert j in b'.rows && b'.rows[j] == b.rows[j];
    }
  }

  // ---------- what the service does to the disk ----------

  lemma InBinNotHome(p: Path, uid: string, d: Path)
    requires InBin(p)
    ensures !AtHome(p) && !(HomePath(uid, d) <= p) && !(p <= BinDir(uid))
  {
    assert p[1] == BinDir(p[0])[1] && HomePath(uid, d)[1] == "files";
  }

  // Moving to a place in the trashbin: the tree is there, the other bins are as before.
  lemma MovedToBinFacts(b: Bin, uid: string, rel: Path, now: nat)
    requires Closed(b.es) && CanMoveToBin(b, uid, rel, now)
    ensures
      var es, at := MovedToBin(b, uid, rel, now), RowPath(DeletedEntry(b, uid, rel, false, None, now));
      && SameTree(b.es, HomePath(uid, rel), es, at) && at in es && SameBins(b.es, es, at)
      && HomePath(uid, rel) !in es
  {
    var src, at := HomePath(uid, rel), RowPath(DeletedEntry(b, uid, rel, false, None, now));
    var es1, es := WithDirs(b.es, BinDir(uid)), MovedToBin(b, uid, rel, now);
    assert Parent(at) == BinDir(uid) && BinDir(uid) < at;
    ReadyToMove(b, uid, rel, at);
    RenamedMoves(es1, src, at);
    forall r: Path
      ensures SameEntry(b.es, src, es, at, r)
    {
      assert SameEntry(es1, src, es, at, r);
      assert (src + r)[1] == src[1];
      DirsOffHome(b.es, uid, src + r);
    }
    assert SameEntry(b.es, src, es, at, []) && src + [] == src && at + [] == at;
    forall p | InBin(p) && !(at <= p)
      ensures (p in b.es <==> p in es) && (p in b.es && p in es ==> b.es[p] == es[p])
    {
      InBinNotHome(p, uid, rel);
    }
    HomeAndBinApart(src, uid, at);
  }

  lemma MovedToBinClosed(b: Bin, uid: string, rel: Path, now: nat)
    requires Closed(b.es) && CanMoveToBin(b, uid, rel, now)
    ensures Closed(MovedToBin(b, uid, rel, now))
  {
    var src, at := HomePath(uid, rel), RowPath(DeletedEntry(b, uid, rel, false, None, now));
    var es1 := WithDirs(b.es, BinDir(uid));
    assert Parent(at) == BinDir(uid) && BinDir(uid) < at;
    ReadyToMove(b, uid, rel, at);
    ReplacedClosed(es1, src, at);
  }

  // What a rename replaces leaves nothing behind.
  lemma ReplacedClosed(es: Entries, src: Path, dst: Path)
    requires Closed(es) && src in es && src != [] && dst != [] && InDir(es, dst) && !(src <= dst) &&
             Replaceable(es, src, dst)
    ensures Closed(Renamed(es, src, dst))
  {
    if dst in es {
      ClearedTarget(es, dst);
      RenamedClosed(es - {dst}, src, dst);
      forall p
        ensures p in Renamed(es, src, dst) <==> p in Renamed(es - {dst}, src, dst)
      {
        SubstFacts(dst, src, p);
        if dst <= p {
          SubstFacts(src, dst, Subst(dst, src, p));
        }
      }
      assert Renamed(es, src, dst) == Renamed(es - {dst}, src, dst);
    } else {
      VacantAt(es, dst);
      RenamedClosed(es, src, dst);
    }
  }

  lemma ClearedTarget(es: Entries, dst: Path)
    requires Closed(es) && dst != [] && InDir(es, dst) && EmptyAt(es, dst)
    ensures Closed(es - {dst}) && Vacant((es - {dst}).Keys, dst) && InDir(es - {dst}, dst)
  {
    var es' := es - {dst};
    forall p | p in es'
      ensures InDir(es', p) && !(dst <= p)
    {
      assert InDir(es, p) && !(dst < p);
      if dst <= p {
        ProperPrefix(dst, p);
      }
      assert p != [] && Parent(p) == dst ==> dst < p;
    }
  }

  // Moving back out: the tree arrives on a free place, other bins are as before.
  lemma MovedBackFacts(b: Bin, uid: string, id: nat, dest: Option<Path>)
    requires Closed(b.es) && CanRestore(b, uid, id, dest)
    ensures
      var es, at, to := MovedBack(b, uid, id, dest), RowPath(b.rows[id]), HomePath(uid, RestoredTo(b, uid, id, dest));
      && Closed(es) && SameTree(b.es, at, es, to) && at !in es && to !in b.es && SameBins(b.es, es, at)
      && (forall p :: p in b.es && !(at <= p) ==> p in es && es[p] == b.es[p])
  {
    var rel := TargetDir(b.rows[id], dest);
    var dir, at, to := HomePath(uid, rel), RowPath(b.rows[id]), HomePath(uid, RestoredTo(b, uid, id, dest));
    var es1, es := WithDirs(b.es, dir), MovedBack(b, uid, id, dest);
    FirstFreeIs(es1, dir, TargetName(b.rows[id], dest), 0);
    assert Parent(to) == dir && Parent(at) == BinDir(uid) && BinDir(uid) < at;
    assert to == dir + [RestoredTo(b, uid, id, dest)[|rel|]];
    WithDirsFacts(b.es, dir);
    ReadyToReturn(b.es, uid, at, RestoredTo(b, uid, id, dest));
    VacantAt(es1, to);
    RenamedMoves(es1, at, to);
    RenamedClosed(es1, at, to);
    BackInBins(b, uid, id, dest);
  }

  lemma BackInBins(b: Bin, uid: string, id: nat, dest: Option<Path>)
    requires Closed(b.es) && CanRestore(b, uid, id, dest)
    requires !(RowPath(b.rows[id]) <= HomePath(uid, RestoredTo(b, uid, id, dest)))
    ensures
      var es, at, to := MovedBack(b, uid, id, dest), RowPath(b.rows[id]), HomePath(uid, RestoredTo(b, uid, id, dest));
      SameTree(b.es, at, es, to) && SameBins(b.es, es, at) && at !in es
  {
    var rel := TargetDir(b.rows[id], dest);
    var dir, at, to := HomePath(uid, rel), RowPath(b.rows[id]), HomePath(uid, RestoredTo(b, uid, id, dest));
    var es1, es := WithDirs(b.es, dir), MovedBack(b, uid, id, dest);
    RenamedMoves(es1, at, to);
    forall r: Path
      ensures SameEntry(b.es, at, es, to, r)
    {
      assert SameEntry(es1, at, es, to, r);
      assert (at + r)[1] == BinDir(uid)[1];
      DirsOffBin(b.es, uid, rel, at + r);
    }
    forall p | InBin(p) && !(at <= p)
      ensures (p in b.es <==> p in es) && (p in b.es && p in es ==> b.es[p] == es[p])
    {
      InBinNotHome(p, uid, RestoredTo(b, uid, id, dest));
      DirsOffBin(b.es, uid, rel, p);
    }
    InBinNotHome(at, uid, RestoredTo(b, uid, id, dest));
  }

  // A copied-in tree equals its source, which is still there; the other bins are as before.
  lemma CopiedIntoFacts(es: Entries, uid: string, src: Path, dst: Path)
    requires Closed(es) && AtHome(src) && CanCopyInto(es, BinDir(uid), src, dst) && BinDir(uid) < dst &&
             Parent(dst) == BinDir(uid)
    ensures
      var es' := CopiedInto(es, BinDir(uid), src, dst);
      && SameTree(es, src, es', dst) && Extends(es, es') && SameBins(es, es', dst) && dst in es'
  {
    var es2, es' := WithDirs(es, BinDir(uid))[dst := DirEntry], CopiedInto(es, BinDir(uid), src, dst);
    ReadyToCopy(es, uid, src, dst);
    forall r: Path
      ensures SameEntry(es, src, es', dst, r)
    {
      assert (src + r)[1] == src[1];
      DirsOffHome(es, uid, src + r);
      GraftedEntry(es2, src, dst, r);
      assert src + r != dst && (r == [] ==> src + r == src && dst + r == dst);
    }
    forall p | p in es
      ensures p in es' && es'[p] == es[p]
    {
      assert p in es2;
    }
    forall p | InBin(p) && !(dst <= p)
      ensures p in es' ==> p in es
    {
      InBinNotHome(p, uid, []);
    }
  }

  lemma GraftedEntry(es: Entries, src: Path, dst: Path, r: Path)
    requires src in es && dst in es && es[src] == es[dst] && EmptyDir(es, dst) && Disjoint(src, dst)
    ensures SameEntry(es, src, Grafted(es, src, dst), dst, r)
  {
    var q, p := src + r, dst + r;
    assert q[|src|..] == r && p[|dst|..] == r;
    if r == [] {
      assert q == src && p == dst;
    } else {
      assert src < q && dst < p && Subst(dst, src, p) == q && Subst(src, dst, q) == p;
    }
  }

  // ---------- runs ----------

  // One thing that happens to the disk and the table, failures included.  `recorded` and
  // `dropped` tell whether the database statement went through; `es` is what a copy or a
  // removal, complete or not, left on the disk.
  datatype Op =
    | Delete(uid: string, rel: Path, isDir: bool, fileid: Option<nat>, now: nat, recorded: bool)
    | CopyIn(uid: string, location: Path, basename: string, isDir: bool, fileid: Option<nat>, now: nat, es: Entries,
             recorded: bool)
    | Restore(uid: string, id: nat, dest: Option<Path>, dropped: bool)
    | Purge(id: nat, es: Entries, dropped: bool)
    | Elsewhere(es: Entries)

  function OpEntry(b: Bin, op: Op): TrashEntry
    requires op.CopyIn? || (op.Delete? && op.rel != [])
  {
    match op
    case Delete(uid, rel, isDir, fileid, now, _) => DeletedEntry(b, uid, rel, isDir, fileid, now)
    case CopyIn(uid, location, basename, isDir, fileid, now, _, _) =>
      NewEntry(b.rows, uid, location, basename, isDir, fileid, now)
  }

  ghost predicate SameAllBins(es: Entries, es': Entries) {
    forall p :: InBin(p) ==> (p in es <==> p in es') && (p in es && p in es' ==> es[p] == es'[p])
  }

  // A copy needs a free place; a rename does not, and can be refused its row afterwards.
  ghost predicate Permitted(b: Bin, op: Op) {
    match op
    case Delete(uid, rel, _, _, now, recorded) =>
      CanMoveToBin(b, uid, rel, now) && (recorded ==> RowFree(b.rows, OpEntry(b, op)))
    case CopyIn(_, _, _, _, _, _, es, recorded) =>
      && Closed(es) && RowPath(OpEntry(b, op)) !in b.es && SameBins(b.es, es, RowPath(OpEntry(b, op)))
      && (recorded ==> RowFree(b.rows, OpEntry(b, op)))
    case Restore(uid, id, dest, _) => CanRestore(b, uid, id, dest)
    case Purge(id, es, _) => id in b.rows && Closed(es) && SameBins(b.es, es, RowPath(b.rows[id]))
    case Elsewhere(es) => Closed(es) && SameAllBins(b.es, es)
  }

  ghost function Apply(b: Bin, op: Op): Bin
    requires Permitted(b, op)
  {
    match op
    case Delete(uid, rel, _, _, now, recorded) => Added(b, MovedToBin(b, uid, rel, now), OpEntry(b, op), recorded)
    case CopyIn(_, _, _, _, _, _, es, recorded) => Added(b, es, OpEntry(b, op), recorded)
    case Restore(uid, id, dest, dropped) => Removed(b, MovedBack(b, uid, id, dest), id, dropped)
    case Purge(id, es, dropped) => Removed(b, es, id, dropped)
    case Elsewhere(es) => Bin(es, b.rows, b.nextId)
  }

  function Added(b: Bin, es: Entries, e: TrashEntry, recorded: bool): Bin {
    if recorded then Recorded(b, es, e) else Bin(es, b.rows, b.nextId)
  }

  function Removed(b: Bin, es: Entries, id: nat, dropped: bool): Bin {
    Bin(es, if dropped then b.rows - {id} else b.rows, b.nextId)
  }

  // The rows whose place is `at`.
  function Holders(rows: TrashRows, at: Path): set<nat> {
    set id | id in rows && RowPath(rows[id]) == at
  }

  // The entries an operation is about: restored or purged, or in the way of a new one.
  function Touched(b: Bin, op: Op): set<nat>
    requires op.Delete? ==> op.rel != []
  {
    match op
    case Restore(_, id, _, _) => {id}
    case Purge(id, _, _) => {id}
    case Elsewhere(_) => {}
    case _ => Holders(b.rows, RowPath(OpEntry(b, op)))
  }

  ghost predicate AllPermitted(b: Bin, ops: seq<Op>)
    decreases |ops|
  {
    ops == [] || (Permitted(b, ops[0]) && AllPermitted(Apply(b, ops[0]), ops[1..]))
  }

  ghost function Run(b: Bin, ops: seq<Op>): Bin
    requires AllPermitted(b, ops)
    decreases |ops|
  {
    if ops == [] then b else Run(Apply(b, ops[0]), ops[1..])
  }

  ghost function AllTouched(b: Bin, ops: seq<Op>): set<nat>
    requires AllPermitted(b, ops)
    decreases |ops|
  {
    if ops == [] then {} else Touched(b, ops[0]) + AllTouched(Apply(b, ops[0]), ops[1..])
  }

  // Some run of operations leads from one state to the other and touches no entry but `ids`.
  ghost predicate Reaches(b: Bin, b': Bin, ids: set<nat>) {
    exists ops :: AllPermitted(b, ops) && Run(b, ops) == b' && AllTouched(b, ops) <= ids
  }

  lemma OneOp(b: Bin, op: Op)
    requires Permitted(b, op)
    ensures Reaches(b, Apply(b, op), Touched(b, op))
  {
    var ops, b' := [op], Apply(b, op);
    assert ops[1..] == [] && AllPermitted(b', ops[1..]) && Run(b', ops[1..]) == b' && AllTouched(b', ops[1..]) == {};
    assert AllPermitted(b, ops) && Run(b, ops) == b' && AllTouched(b, ops) == Touched(b, op);
  }

  lemma {:induction false} RunsTogether(b: Bin, o: seq<Op>, p: seq<Op>)
    requires AllPermitted(b, o) && AllPermitted(Run(b, o), p)
    ensures AllPermitted(b, o + p) && Run(b, o + p) == Run(Run(b, o), p)
    ensures AllTouched(b, o + p) == AllTouched(b, o) + AllTouched(Run(b, o), p)
    decreases |o|
  {
    if o == [] {
      assert o + p == p;
    } else {
      RunsTogether(Apply(b, o[0]), o[1..], p);
      FirstOut(o, p);
      FirstOp(b, o[0], o[1..] + p, o + p);
    }
  }

  lemma FirstOp(b: Bin, op: Op, rest: seq<Op>, ops: seq<Op>)
    requires Permitted(b, op) && AllPermitted(Apply(b, op), rest) && ops == [op] + rest
    ensures AllPermitted(b, ops) && Run(b, ops) == Run(Apply(b, op), rest)
    ensures AllTouched(b, ops) == Touched(b, op) + AllTouched(Apply(b, op), rest)
  {
    assert ops[0] == op && ops[1..] == rest;
  }

  lemma ReachesOn(b: Bin, b1: Bin, b2: Bin, i: set<nat>, j: set<nat>)
    requires Reaches(b, b1, i) && Reaches(b1, b2, j)
    ensures Reaches(b, b2, i + j)
  {
    var o :| AllPermitted(b, o) && Run(b, o) == b1 && AllTouched(b, o) <= i;
    var p :| AllPermitted(b1, p) && Run(b1, p) == b2 && AllTouched(b1, p) <= j;
    RunsTogether(b, o, p);
  }

  lemma ReachesMore(b: Bin, b': Bin, i: set<nat>, j: set<nat>)
    requires Reaches(b, b', i) && i <= j
    ensures Reaches(b, b', j)
  {
    var o :| AllPermitted(b, o) && Run(b, o) == b' && AllTouched(b, o) <= i;
  }

  lemma BinsUntouched(b: Bin, es: Entries)
    requires Closed(es) && SameAllBins(b.es, es)
    ensures Reaches(b, Bin(es, b.rows, b.nextId), {})
  {
    OneOp(b, Elsewhere(es));
  }

  // ---------- what every operation keeps ----------

  lemma OpSuffixHasNoDot(b: Bin, op: Op)
    requires op.CopyIn? || (op.Delete? && op.rel != [])
    ensures '.' !in OpEntry(b, op).suffix
  {
    var e := OpEntry(b, op);
    SuffixHasNoDot(e.deletedAt, |Bucket(b.rows, e.user, e.basename, Base(e.deletedAt))| + 1);
  }

  lemma DeletePlace(b: Bin, op: Op)
    requires Held(b) && op.Delete? && Permitted(b, op)
    ensures
      var es, at := MovedToBin(b, op.uid, op.rel, op.now), RowPath(OpEntry(b, op));
      Closed(es) && SameBins(b.es, es, at) && at in es && SameTree(b.es, HomePath(op.uid, op.rel), es, at)
  {
    assert RowPath(OpEntry(b, op)) == RowPath(DeletedEntry(b, op.uid, op.rel, false, None, op.now));
    MovedToBinFacts(b, op.uid, op.rel, op.now);
    MovedToBinClosed(b, op.uid, op.rel, op.now);
  }

  lemma AddedKeeps(b: Bin, es: Entries, e: TrashEntry, recorded: bool)
    requires Held(b) && (recorded ==> RowFree(b.rows, e)) && '.' !in e.suffix && Closed(es) &&
             SameBins(b.es, es, RowPath(e))
    ensures Held(Added(b, es, e, recorded))
    ensures forall id {:trigger RowKept(b, Added(b, es, e, recorded), id)} ::
              id in b.rows && RowPath(b.rows[id]) != RowPath(e) ==> RowKept(b, Added(b, es, e, recorded), id)
  {
    var b' := Added(b, es, e, recorded);
    if recorded {
      RecordedHeld(b, es, e);
    } else {
      SameRowsHeld(b, es);
    }
    forall id | id in b.rows && RowPath(b.rows[id]) != RowPath(e)
      ensures RowKept(b, b', id)
    {
      assert RowHeld(b, id);
      KeptOutside(b, b', id, e);
    }
  }

  lemma SameRowsHeld(b: Bin, es: Entries)
    requires Held(b) && Closed(es)
    ensures Held(Bin(es, b.rows, b.nextId))
  {
    var b' := Bin(es, b.rows, b.nextId);
    forall j | j in b'.rows
      ensures RowHeld(b', j)
    {
      assert RowHeld(b, j);
    }
  }

  lemma RemovedKeeps(b: Bin, es: Entries, id: nat, dropped: bool)
    requires Held(b) && id in b.rows && Closed(es) && SameBins(b.es, es, RowPath(b.rows[id]))
    ensures Held(Removed(b, es, id, dropped))
    ensures forall j {:trigger RowKept(b, Removed(b, es, id, dropped), j)} ::
              j in b.rows && j != id ==> RowKept(b, Removed(b, es, id, dropped), j)
  {
    var b' := Removed(b, es, id, dropped);
    forall j | j in b'.rows
      ensures RowHeld(b', j)
    {
      assert RowHeld(b, j);
    }
    forall j | j in b.rows && j != id
      ensures RowKept(b, b', j)
    {
      DroppedKept(b, es, id, j);
    }
  }

  lemma ElsewhereKeeps(b: Bin, es: Entries, id: nat)
    requires SameAllBins(b.es, es) && id in b.rows
    ensures RowKept(b, Bin(es, b.rows, b.nextId), id)
  {
    var at := RowPath(b.rows[id]);
    forall r: Path
      ensures SameEntry(b.es, at, es, at, r)
    {
      assert (at + r)[0] == at[0] && BinDir(at[0]) < at + r;
    }
  }

  // Whatever happens, success or failure, to other entries: this entry's tree stays.
  lemma StepKeeps(b: Bin, op: Op, id: nat)
    requires Held(b) && Permitted(b, op)
    ensures Held(Apply(b, op))
    ensures id in b.rows && id !in Touched(b, op) ==> RowKept(b, Apply(b, op), id)
  {
    match op
    case Delete(uid, rel, isDir, _, now, recorded) =>
      OpSuffixHasNoDot(b, op);
      DeletePlace(b, op);
      AddedKeeps(b, MovedToBin(b, uid, rel, now), OpEntry(b, op), recorded);
    case CopyIn(uid, _, basename, _, _, now, es, recorded) =>
      OpSuffixHasNoDot(b, op);
      AddedKeeps(b, es, OpEntry(b, op), recorded);
    case Restore(uid, i, dest, dropped) =>
      MovedBackFacts(b, uid, i, dest);
      RemovedKeeps(b, MovedBack(b, uid, i, dest), i, dropped);
    case Purge(i, es, dropped) =>
      RemovedKeeps(b, es, i, dropped);
    case Elsewhere(es) =>
      SameRowsHeld(b, es);
      if id in b.rows {
        ElsewhereKeeps(b, es, id);
      }
  }

  lemma SameTreeTransitive(es: Entries, a: Path, es': Entries, b: Path, es'': Entries, c: Path)
    requires SameTree(es, a, es', b) && SameTree(es', b, es'', c)
    ensures SameTree(es, a, es'', c)
  {
    forall r: Path
      ensures SameEntry(es, a, es'', c, r)
    {
      assert SameEntry(es, a, es', b, r) && SameEntry(es', b, es'', c, r);
    }
  }

  lemma {:induction false} RunKeeps(b: Bin, ops: seq<Op>, id: nat)
    requires Held(b) && AllPermitted(b, ops)
    ensures Held(Run(b, ops))
    ensures id in b.rows && id !in AllTouched(b, ops) ==> RowKept(b, Run(b, ops), id)
    decreases |ops|
  {
    if ops == [] {
      if id in b.rows {
        ElsewhereKeeps(b, b.es, id);
      }
    } else {
      var b1 := Apply(b, ops[0]);
      StepKeeps(b, ops[0], id);
      RunKeeps(b1, ops[1..], id);
      if id in b.rows && id !in AllTouched(b, ops) {
        var at := RowPath(b.rows[id]);
        SameTreeTransitive(b.es, at, b1.es, at, Run(b, ops).es, at);
      }
    }
  }

  // Delete, let anything happen to other entries and anywhere else, restore: what comes back
  // is the tree that was deleted, and if its old place is free, it comes back there.
  lemma RestoreReturnsDeleted(b: Bin, del: Op, b2: Bin, ids: set<nat>, dest: Option<Path>)
    requires Held(b) && del.Delete? && del.recorded && Permitted(b, del)
    requires Reaches(Apply(b, del), b2, ids) && b.nextId !in ids && CanRestore(b2, del.uid, b.nextId, dest)
    ensures
      var id := b.nextId;
      && SameTree(b.es, HomePath(del.uid, del.rel), MovedBack(b2, del.uid, id, dest),
                  HomePath(del.uid, RestoredTo(b2, del.uid, id, dest)))
      && (dest == None && HomePath(del.uid, del.rel) !in b2.es ==> RestoredTo(b2, del.uid, id, dest) == del.rel)
      && HomePath(del.uid, RestoredTo(b2, del.uid, id, dest)) !in b2.es
  {
    var b1, id, src := Apply(b, del), b.nextId, HomePath(del.uid, del.rel);
    var ops :| AllPermitted(b1, ops) && Run(b1, ops) == b2 && AllTouched(b1, ops) <= ids;
    var e := OpEntry(b, del);
    StepKeeps(b, del, id);
    assert b1.rows[id] == e;
    DeletePlace(b, del);
    RunKeeps(b1, ops, id);
    assert b2.rows[id] == e;
    MovedBackFacts(b2, del.uid, id, dest);
    var es3, to := MovedBack(b2, del.uid, id, dest), HomePath(del.uid, RestoredTo(b2, del.uid, id, dest));
    SameTreeTransitive(b.es, src, b1.es, RowPath(e), b2.es, RowPath(e));
    SameTreeTransitive(b.es, src, b2.es, RowPath(e), es3, to);
    if dest == None && src !in b2.es {
      OldPlaceFree(b2.es, del.uid, del.rel);
    }
  }

  // An entry keeps its kind as long as nothing touches it, so that it can be purged exactly if
  // the deletion recorded its kind.
  lemma DeletedPurgeableIff(b: Bin, del: Op, b2: Bin, ids: set<nat>)
    requires Held(b) && del.Delete? && del.recorded && Permitted(b, del)
    requires Reaches(Apply(b, del), b2, ids) && b.nextId !in ids
    ensures
      && b.nextId in b2.rows
      && Describes(b2.rows[b.nextId], del.uid, Parent(del.rel), Basename(del.rel), del.isDir, del.fileid, del.now)
      && (CanPurge(b2.es, b2.rows[b.nextId]) <==> (b.es[HomePath(del.uid, del.rel)].DirEntry? <==> del.isDir))
  {
    var b1, id, src := Apply(b, del), b.nextId, HomePath(del.uid, del.rel);
    var ops :| AllPermitted(b1, ops) && Run(b1, ops) == b2 && AllTouched(b1, ops) <= ids;
    var at := RowPath(OpEntry(b, del));
    StepKeeps(b, del, id);
    DeletePlace(b, del);
    RunKeeps(b1, ops, id);
    SameTreeTransitive(b.es, src, b1.es, at, b2.es, at);
    assert SameEntry(b.es, src, b2.es, at, []) && src + [] == src && at + [] == at;
    assert Parent(at) == BinDir(del.uid);
    ReachablePassable(b2.es, at);
  }

  lemma OldPlaceFree(es: Entries, uid: string, rel: Path)
    requires rel != [] && HomePath(uid, rel) !in es
    ensures
      var dir := HomePath(uid, Parent(rel));
      FirstFree(WithDirs(es, dir), dir, Basename(rel), 0) == Some(0) &&
        Parent(rel) + [Candidate(Basename(rel), 0)] == rel
  {
    var dir := HomePath(uid, Parent(rel));
    assert Parent(rel) + [Basename(rel)] == rel;
    assert dir + [Basename(rel)] == HomePath(uid, rel);
    NotOnTheWay(es, dir, HomePath(uid, rel));
  }

  // A suffix that is taken after all: the rename silently replaces the holder's tree by the
  // newly deleted one, and then the row is refused.
  lemma CollisionReplaces(b: Bin, uid: string, rel: Path, isDir: bool, fileid: Option<nat>, now: nat, holder: nat)
    requires Held(b) && CanMoveToBin(b, uid, rel, now) && holder in b.rows
    requires var e := DeletedEntry(b, uid, rel, isDir, fileid, now); RowPath(b.rows[holder]) == RowPath(e)
    ensures SameTree(b.es, HomePath(uid, rel), MovedToBin(b, uid, rel, now), RowPath(b.rows[holder]))
    ensures !RowFree(b.rows, DeletedEntry(b, uid, rel, isDir, fileid, now))
  {
    var e := DeletedEntry(b, uid, rel, isDir, fileid, now);
    assert RowPath(e) == RowPath(DeletedEntry(b, uid, rel, false, None, now));
    MovedToBinFacts(b, uid, rel, now);
    SuffixHasNoDot(now, |Bucket(b.rows, uid, e.basename, Base(now))| + 1);
    assert RowHeld(b, holder);
    RowPathIs(b.rows[holder], e);
  }

  // Rows and entries of the trashbins in bijection.
  ghost predicate Paired(b: Bin) {
    Held(b) && NoneMissing(b) && NoOrphans(b)
  }

  // Both halves of the operation went through.
  ghost predicate Complete(b: Bin, op: Op)
    requires Permitted(b, op)
  {
    match op
    case Delete(_, _, _, _, _, recorded) => recorded
    case CopyIn(_, _, _, _, _, _, es, recorded) => recorded && RowPath(OpEntry(b, op)) in es
    case Restore(_, _, _, dropped) => dropped
    case Purge(id, es, dropped) => dropped && RowPath(b.rows[id]) !in es
    case Elsewhere(_) => true
  }

  lemma StepKeepsPairing(b: Bin, op: Op)
    requires Paired(b) && Permitted(b, op) && Complete(b, op)
    ensures Paired(Apply(b, op))
  {
    StepKeeps(b, op, 0);
    match op
    case Delete(uid, rel, _, _, now, _) =>
      OpSuffixHasNoDot(b, op);
      DeletePlace(b, op);
      RecordedMatched(b, MovedToBin(b, uid, rel, now), OpEntry(b, op));
    case CopyIn(uid, _, basename, _, _, now, es, _) =>
      OpSuffixHasNoDot(b, op);
      RecordedMatched(b, es, OpEntry(b, op));
    case Restore(uid, id, dest, _) =>
      MovedBackFacts(b, uid, id, dest);
      DroppedMatched(b, MovedBack(b, uid, id, dest), id);
    case Purge(id, es, _) =>
      DroppedMatched(b, es, id);
    case Elsewhere(es) =>
      ElsewhereMatched(b, es);
  }

  ghost predicate AllComplete(b: Bin, ops: seq<Op>)
    requires AllPermitted(b, ops)
    decreases |ops|
  {
    ops == [] || (Complete(b, ops[0]) && AllComplete(Apply(b, ops[0]), ops[1..]))
  }

  // Rows and entries stay paired over every run whose operations all go through.
  lemma {:induction false} RunKeepsPairing(b: Bin, ops: seq<Op>)
    requires Paired(b) && AllPermitted(b, ops) && AllComplete(b, ops)
    ensures Paired(Run(b, ops))
    decreases |ops|
  {
    if ops != [] {
      StepKeepsPairing(b, ops[0]);
      RunKeepsPairing(Apply(b, ops[0]), ops[1..]);
    }
  }

  lemma ElsewhereMatched(b: Bin, es: Entries)
    requires Held(b) && NoneMissing(b) && NoOrphans(b) && forall p :: InBin(p) ==> (p in b.es <==> p in es)
    ensures NoneMissing(Bin(es, b.rows, b.nextId)) && NoOrphans(Bin(es, b.rows, b.nextId))
  {
    var b' := Bin(es, b.rows, b.nextId);
    forall id | id in b'.rows
      ensures Present(b', id)
    {
      assert Present(b, id) && RowHeld(b, id);
      RowPathIs(b.rows[id], b.rows[id]);
    }
    forall p | p in es && InBin(p) && |p| == 4
      ensures Named(b', p)
    {
      assert Named(b, p);
    }
  }

  // ---------- conservation ----------

  function Size(n: Entry): nat {
    if n.FileEntry? then |n.content| else 0
  }

  ghost function Sizes(es: Entries): map<Path, int> {
    map p | p in es :: Size(es[p])
  }

  // All bytes on the disk, homes and trashbins together.
  ghost function Bytes(es: Entries): int {
    Sum(Sizes(es))
  }

  lemma WithDirsBytes(es: Entries, d: Path)
    ensures Bytes(WithDirs(es, d)) == Bytes(es)
  {
    var es' := WithDirs(es, d);
    var made := map p | p in es' && p !in es :: Size(es'[p]);
    SumSplit(Sizes(es'), Sizes(es), made);
    SumZero(made);
  }

  lemma RenamedBytes(es: Entries, src: Path, dst: Path)
    requires Vacant(es.Keys, dst) && !(src <= dst)
    ensures Bytes(Renamed(es, src, dst)) == Bytes(es)
  {
    var es' := Renamed(es, src, dst);
    var name := map p | p in es :: Subst(src, dst, p);
    forall p | p in es
      ensures name[p] in es' && es'[name[p]] == es[p] && Subst(dst, src, name[p]) == p
    {
      SubstInverse(es.Keys, src, dst, p);
      SubstFacts(src, dst, p);
    }
    forall p | p in es'
      ensures p in name.Values
    {
      SubstFacts(dst, src, p);
      assert Subst(dst, src, p) in es && name[Subst(dst, src, p)] == p;
    }
    assert name.Values == Sizes(es').Keys;
    SumRenamed(Sizes(es), Sizes(es'), name);
  }

  lemma DeleteKeepsBytes(b: Bin, uid: string, rel: Path, now: nat)
    requires Closed(b.es) && CanMoveToBin(b, uid, rel, now)
    requires RowPath(DeletedEntry(b, uid, rel, false, None, now)) !in b.es
    ensures Bytes(MovedToBin(b, uid, rel, now)) == Bytes(b.es)
  {
    var src, at := HomePath(uid, rel), RowPath(DeletedEntry(b, uid, rel, false, None, now));
    var es1 := WithDirs(b.es, BinDir(uid));
    assert BinDir(uid) < at && Parent(at) == BinDir(uid);
    ReadyToMove(b, uid, rel, at);
    NotOnTheWay(b.es, BinDir(uid), at);
    VacantAt(es1, at);
    RenamedBytes(es1, src, at);
    WithDirsBytes(b.es, BinDir(uid));
  }

  lemma RestoreKeepsBytes(b: Bin, uid: string, id: nat, dest: Option<Path>)
    requires Closed(b.es) && CanRestore(b, uid, id, dest)
    ensures Bytes(MovedBack(b, uid, id, dest)) == Bytes(b.es)
  {
    var rel := TargetDir(b.rows[id], dest);
    var dir, at, to := HomePath(uid, rel), RowPath(b.rows[id]), HomePath(uid, RestoredTo(b, uid, id, dest));
    var es1 := WithDirs(b.es, dir);
    FirstFreeIs(es1, dir, TargetName(b.rows[id], dest), 0);
    assert to == dir + [RestoredTo(b, uid, id, dest)[|rel|]];
    WithDirsFacts(b.es, dir);
    VacantAt(es1, to);
    assert BinDir(uid) <= at;
    HomeAndBinApart(to, uid, at);
    RenamedBytes(es1, at, to);
    WithDirsBytes(b.es, dir);
  }

  // Restoring straight away gives the disk back, but for the trashbin directory itself.
  lemma DeleteThenRestore(b: Bin, uid: string, rel: Path, isDir: bool, fileid: Option<nat>, now: nat)
    requires Closed(b.es) && CanMoveToBin(b, uid, rel, now)
    requires RowPath(DeletedEntry(b, uid, rel, isDir, fileid, now)) !in b.es
    ensures
      var b1 := Recorded(b, MovedToBin(b, uid, rel, now), DeletedEntry(b, uid, rel, isDir, fileid, now));
      && CanRestore(b1, uid, b.nextId, None) && RestoredTo(b1, uid, b.nextId, None) == rel
      && MovedBack(b1, uid, b.nextId, None) == WithDirs(b.es, BinDir(uid))
      && (b.nextId !in b.rows ==> b1.rows - {b.nextId} == b.rows)
  {
    MovedToBinFacts(b, uid, rel, now);
    OldPlaceFree(MovedToBin(b, uid, rel, now), uid, rel);
    MovedThereAndBack(b, uid, rel, now);
  }

  lemma MovedThereAndBack(b: Bin, uid: string, rel: Path, now: nat)
    requires Closed(b.es) && CanMoveToBin(b, uid, rel, now) &&
             RowPath(DeletedEntry(b, uid, rel, false, None, now)) !in b.es
    ensures
      var at, es := RowPath(DeletedEntry(b, uid, rel, false, None, now)), MovedToBin(b, uid, rel, now);
      && Passable(es, HomePath(uid, Parent(rel)))
      && Renamed(WithDirs(es, HomePath(uid, Parent(rel))), at, HomePath(uid, rel)) == WithDirs(b.es, BinDir(uid))
  {
    var src, at := HomePath(uid, rel), RowPath(DeletedEntry(b, uid, rel, false, None, now));
    var es0 := WithDirs(b.es, BinDir(uid));
    assert BinDir(uid) < at && Parent(at) == BinDir(uid) && Parent(src) == HomePath(uid, Parent(rel));
    ReadyToMove(b, uid, rel, at);
    NotOnTheWay(b.es, BinDir(uid), at);
    VacantAt(es0, at);
    HomeAndBinApart(src, uid, at);
    ParentStays(es0, src, at);
    RenamedTwice(es0, src, at);
  }

  // The directory a tree is moved out of stays, so nothing is missing on the way to it.
  lemma ParentStays(es: Entries, src: Path, dst: Path)
    requires Closed(es) && src in es && src != [] && Vacant(es.Keys, dst) && !(src <= dst)
    ensures Passable(Renamed(es, src, dst), Parent(src))
    ensures WithDirs(Renamed(es, src, dst), Parent(src)) == Renamed(es, src, dst)
  {
    var dir, es' := Parent(src), Renamed(es, src, dst);
    RenamedMoves(es, src, dst);
    forall i | 0 <= i <= |dir|
      ensures dir[..i] in es' && es'[dir[..i]].DirEntry?
    {
      assert dir[..i] <= src && dir[..i] != src;
      ProperPrefix(dir[..i], src);
      AncestorInDisk(es, src, dir[..i]);
    }
    assert OnTheWay(dir) <= es'.Keys;
  }

  lemma RenamedTwice(es: Entries, src: Path, dst: Path)
    requires Vacant(es.Keys, dst) && Disjoint(src, dst)
    ensures Renamed(Renamed(es, src, dst), dst, src) == es
  {
    var es1 := Renamed(es, src, dst);
    var es2 := Renamed(es1, dst, src);
    forall p
      ensures p in es2 <==> p in es
      ensures p in es && p in es2 ==> es2[p] == es[p]
    {
      SubstFacts(src, dst, p);
      if src <= p {
        assert Subst(src, dst, p) in es1 <==> p in es;
      }
    }
  }
}
