// The trash service: soft deletion, restore and purge over one disk and one table of rows.
// A missed disk operation and a failed database statement come from the same schedule.
module TrashService {
  import opened Wrappers
  import opened StoragePaths
  import opened PlainTree
  import opened Disks
  import opened TreeCopy
  import opened TrashNames
  import opened TrashSpec
  import opened TrashRuns

  class Trash {
    const fs: Disk
    var rows: TrashRows
    var nextId: nat

    constructor (fs: Disk)
      ensures this.fs == fs && rows == map[] && nextId == 0
    {
      this.fs := fs;
      rows := map[];
      nextId := 0;
    }

    function State(): Bin
      reads this, fs
    {
      Bin(fs.entries, rows, nextId)
    }

    method InsertRow(e: TrashEntry) returns (r: Result<nat, TrashError>)
      modifies this, fs`ops
      ensures fs.ops == old(fs.ops) + 1
      ensures r == if AllWork(fs.faults, old(fs.ops), fs.ops) && RowFree(old(rows), e) then Ok(old(nextId)) else Err(Db)
      ensures r.Ok? ==> rows == old(rows)[old(nextId) := e] && nextId == old(nextId) + 1
      ensures r.Err? ==> rows == old(rows) && nextId == old(nextId)
    {
      var f := fs.Tick();
      if f.Fails? || !RowFree(rows, e) {
        return Err(Db);
      }
      r := Ok(nextId);
      rows := rows[nextId := e];
      nextId := nextId + 1;
    }

    method SoftDelete(uid: string, rel: Path, isDir: bool, fileid: Option<nat>, now: nat)
      returns (r: Result<nat, TrashError>)
      requires Segments(rel) && Closed(fs.entries)
      modifies this, fs
      ensures fs.ops >= old(fs.ops)
      ensures r.Ok? <==> CanMoveToBin(old(State()), uid, rel, now) &&
                         RowFree(old(rows), DeletedEntry(old(State()), uid, rel, isDir, fileid, now)) &&
                         AllWork(fs.faults, old(fs.ops), fs.ops)
      ensures r.Ok? ==> r.value == old(nextId) &&
                        State() == Recorded(old(State()), MovedToBin(old(State()), uid, rel, now),
                                            DeletedEntry(old(State()), uid, rel, isDir, fileid, now))
      ensures r.Ok? ==> r.value in rows &&
                        Describes(rows[r.value], uid, Parent(rel), Basename(rel), isDir, fileid, now)
      ensures r == Err(SourceMissing) ==> !LegalPath(rel) || rel == [] || HomePath(uid, rel) !in old(fs.entries)
      ensures r.Err? ==> rows == old(rows) && nextId == old(nextId)
      ensures r.Err? ==> DirsAdded(old(fs.entries), fs.entries, BinDir(uid)) ||
                         (r.error.Db? && CanMoveToBin(old(State()), uid, rel, now) &&
                          fs.entries == MovedToBin(old(State()), uid, rel, now))
      ensures Reaches(old(State()), State(), InTheWay(old(State()), uid, rel, now))
    {
      ghost var b, ops0 := State(), fs.ops;
      Unmoved(b, InTheWay(b, uid, rel, now));
      if !LegalPath(rel) || rel == [] {
        return Err(SourceMissing);
      }
      var f := fs.Tick();
      OneWorks(fs.faults, ops0);
      if f.Fails? {
        return Err(Db);
      }
      var e := NewEntry(rows, uid, Parent(rel), Basename(rel), isDir, fileid, now);
      assert RowPath(e) == RowPath(DeletedEntry(b, uid, rel, false, None, now));
      ghost var ops1 := fs.ops;
      var moved := MoveToBin(uid, rel, RowPath(e));
      WorkTogether(fs.faults, ops0, ops1, fs.ops);
      if moved.Failed? {
        DirsReach(b, fs.entries, BinDir(uid), InTheWay(b, uid, rel, now));
        return Err(moved.error);
      }
      ghost var ops2 := fs.ops;
      r := InsertRow(e);
      WorkTogether(fs.faults, ops0, ops2, fs.ops);
      DeleteReaches(b, uid, rel, isDir, fileid, now, r.Ok?);
    }

    method MoveToBin(uid: string, rel: Path, dst: Path) returns (r: Outcome<TrashError>)
      requires Closed(fs.entries) && BinDir(uid) < dst && Parent(dst) == BinDir(uid)
      modifies fs
      ensures fs.ops >= old(fs.ops)
      ensures r.Done? <==>
                Passable(old(fs.entries), BinDir(uid)) && HomePath(uid, rel) in old(fs.entries) &&
                Replaceable(WithDirs(old(fs.entries), BinDir(uid)), HomePath(uid, rel), dst) &&
                AllWork(fs.faults, old(fs.ops), fs.ops)
      ensures r.Done? ==> fs.entries == Renamed(WithDirs(old(fs.entries), BinDir(uid)), HomePath(uid, rel), dst)
      ensures r.Failed? ==> DirsAdded(old(fs.entries), fs.entries, BinDir(uid)) && Closed(fs.entries)
      ensures r == Failed(SourceMissing) ==> HomePath(uid, rel) !in old(fs.entries)
    {
      ghost var b := State();
      var made := fs.CreateDirAll(BinDir(uid));
      if !made {
        return Failed(Io);
      }
      ReadyToMove(b, uid, rel, dst);
      var there := fs.TryExists(HomePath(uid, rel));
      if there.None? {
        return Failed(Io);
      }
      if !there.value {
        return Failed(SourceMissing);
      }
      var moved := fs.Rename(HomePath(uid, rel), dst);
      return if moved then Done else Failed(Io);
    }

    // Bytes from elsewhere: copied into the trashbin; a failed copy is unlinked again.
    method StageFile(uid: string, dst: Path, content: seq<nat>) returns (ok: bool)
      requires Closed(fs.entries) && BinDir(uid) < dst && Parent(dst) == BinDir(uid)
      modifies fs
      ensures fs.ops > old(fs.ops)
      ensures ok <==>
                Passable(old(fs.entries), BinDir(uid)) && dst !in old(fs.entries) &&
                AllWork(fs.faults, old(fs.ops), fs.ops)
      ensures ok ==> fs.entries == WithDirs(old(fs.entries), BinDir(uid))[dst := FileEntry(content)]
      ensures !ok && FaultAt(fs.faults, fs.ops - 1).Works? ==> DirsAdded(old(fs.entries), fs.entries, BinDir(uid))
      ensures Extends(old(fs.entries), fs.entries)
      ensures StagedAt(old(fs.entries), fs.entries, uid, dst)
    {
      ghost var b, ops0 := State(), fs.ops;
      var made := fs.CreateDirAll(BinDir(uid));
      OneWorks(fs.faults, ops0);
      if !made {
        return false;
      }
      ReadyToMove(b, uid, [], dst);
      NotOnTheWay(b.es, BinDir(uid), dst);
      ghost var es1, ops1 := fs.entries, fs.ops;
      ok := FillNew(dst, content);
      WorkTogether(fs.faults, ops0, ops1, fs.ops);
      ghost var es2 := fs.entries;
      if es2 != es1 {
        ghost var c :| es2 == es1[dst := FileEntry(c)];
        StagedFileAt(b.es, uid, dst, FileEntry(c));
      }
      StagedDirsAt(b.es, uid);
    }

    // A new file and its bytes, or a clean-up.
    method FillNew(dst: Path, content: seq<nat>) returns (ok: bool)
      requires InDir(fs.entries, dst)
      modifies fs
      ensures fs.ops > old(fs.ops)
      ensures ok <==> dst !in old(fs.entries) && AllWork(fs.faults, old(fs.ops), fs.ops)
      ensures ok ==> fs.entries == old(fs.entries)[dst := FileEntry(content)]
      ensures !ok && FaultAt(fs.faults, fs.ops - 1).Works? ==> fs.entries == old(fs.entries)
      ensures fs.entries == old(fs.entries) ||
              (dst !in old(fs.entries) && exists c :: fs.entries == old(fs.entries)[dst := FileEntry(c)])
    {
      ghost var es, ops0 := fs.entries, fs.ops;
      var created := fs.CreateNew(dst);
      OneWorks(fs.faults, ops0);
      if !created {
        return false;
      }
      ghost var ops1 := fs.ops;
      ok := fs.Fill(dst, content);
      OneWorks(fs.faults, ops1);
      WorkTogether(fs.faults, ops0, ops1, fs.ops);
      ghost var k :| 0 <= k <= |content| && fs.entries == es[dst := FileEntry([])][dst := FileEntry(content[..k])];
      assert fs.entries == es[dst := FileEntry(content[..k])];
      if !ok {
        ghost var ops2 := fs.ops;
        var gone := fs.RemoveFile(dst);
        WorkTogether(fs.faults, ops0, ops2, fs.ops);
        assert gone ==> fs.entries == es;
      }
    }

    method SoftDeleteFromReader(uid: string, location: Path, basename: string, isDir: bool, fileid: Option<nat>,
                                now: nat, content: seq<nat>)
      returns (r: Result<nat, TrashError>)
      requires Closed(fs.entries)
      modifies this, fs
      ensures fs.ops >= old(fs.ops) && Extends(old(fs.entries), fs.entries)
      ensures
        var e := NewEntry(old(rows), uid, location, basename, isDir, fileid, now);
        && (r.Ok? <==>
              LegalSegment(basename) && Passable(old(fs.entries), BinDir(uid)) &&
              RowPath(e) !in old(fs.entries) &&
              RowFree(old(rows), e) && AllWork(fs.faults, old(fs.ops), fs.ops))
        && (r.Ok? ==> r.value == old(nextId) &&
                      State() == Recorded(old(State()),
                                          WithDirs(old(fs.entries), BinDir(uid))[RowPath(e) := FileEntry(content)], e))
      ensures r.Ok? ==> r.value in rows && Describes(rows[r.value], uid, location, basename, isDir, fileid, now)
      ensures r.Err? ==> rows == old(rows) && nextId == old(nextId)
      ensures r == Err(Io) ==>
                fs.ops > 0 &&
                (FaultAt(fs.faults, fs.ops - 1).Works? ==> DirsAdded(old(fs.entries), fs.entries, BinDir(uid)))
      ensures Reaches(old(State()), State(), CopyInTheWay(old(State()), uid, basename, now))
    {
      ghost var b, ops0 := State(), fs.ops;
      Unmoved(b, CopyInTheWay(b, uid, basename, now));
      if !LegalSegment(basename) {
        return Err(SourceMissing);
      }
      var f := fs.Tick();
      OneWorks(fs.faults, ops0);
      if f.Fails? {
        return Err(Db);
      }
      ghost var ops1 := fs.ops;
      r := StageFileAndRecord(NewEntry(rows, uid, location, basename, isDir, fileid, now), content);
      WorkTogether(fs.faults, ops0, ops1, fs.ops);
      CopyReaches(b, uid, location, basename, isDir, fileid, now, fs.entries, r.Ok?);
    }

    method StageFileAndRecord(e: TrashEntry, content: seq<nat>) returns (r: Result<nat, TrashError>)
      requires Closed(fs.entries)
      modifies this, fs
      ensures fs.ops > old(fs.ops) && Extends(old(fs.entries), fs.entries)
      ensures r.Ok? <==>
                Passable(old(fs.entries), BinDir(e.user)) && RowPath(e) !in old(fs.entries) &&
                RowFree(old(rows), e) &&
                AllWork(fs.faults, old(fs.ops), fs.ops)
      ensures r.Ok? ==> r.value == old(nextId) &&
                        State() == Recorded(old(State()),
                                            WithDirs(old(fs.entries), BinDir(e.user))[RowPath(e) := FileEntry(content)],
                                            e)
      ensures r.Ok? ==> SameBins(old(fs.entries), fs.entries, RowPath(e))
      ensures r.Err? ==> rows == old(rows) && nextId == old(nextId) && (r.error.Io? || r.error.Db?)
      ensures r == Err(Io) && FaultAt(fs.faults, fs.ops - 1).Works? ==>
                DirsAdded(old(fs.entries), fs.entries, BinDir(e.user))
      ensures StagedAt(old(fs.entries), fs.entries, e.user, RowPath(e))
    {
      ghost var es, ops0 := fs.entries, fs.ops;
      var staged := StageFile(e.user, RowPath(e), content);
      if !staged {
        return Err(Io);
      }
      BinsAfterDirs(es, e.user);
      ghost var ops1 := fs.ops;
      r := InsertRow(e);
      WorkTogether(fs.faults, ops0, ops1, fs.ops);
    }

    // A whole directory from elsewhere: copied below a new directory in the trashbin; a
    // failed copy is removed again.
    method StageTree(uid: string, src: Path, dst: Path) returns (ok: bool)
      requires Closed(fs.entries) && BinDir(uid) < dst && Parent(dst) == BinDir(uid) && AtHome(src)
      modifies fs
      ensures fs.ops > old(fs.ops)
      ensures ok <==> CanCopyInto(old(fs.entries), BinDir(uid), src, dst) && AllWork(fs.faults, old(fs.ops), fs.ops)
      ensures ok ==> fs.entries == CopiedInto(old(fs.entries), BinDir(uid), src, dst)
      ensures !ok ==>
                fs.ops > 0 &&
                (FaultAt(fs.faults, fs.ops - 1).Works? ==> DirsAdded(old(fs.entries), fs.entries, BinDir(uid)))
      ensures Extends(old(fs.entries), fs.entries)
      ensures StagedAt(old(fs.entries), fs.entries, uid, dst)
    {
      ghost var es, ops0 := fs.entries, fs.ops;
      ok := MakeTarget(uid, dst);
      if ok {
        ghost var ops1 := fs.ops;
        ReadyToCopy(es, uid, src, dst);
        ok := CopyOrRollBack(src, dst, WithDirs(es, BinDir(uid)));
        WorkTogether(fs.faults, ops0, ops1, fs.ops);
        StagedTreeAt(es, uid, dst, fs.entries);
      }
    }

    method MakeTarget(uid: string, dst: Path) returns (ok: bool)
      requires Closed(fs.entries) && BinDir(uid) < dst && Parent(dst) == BinDir(uid)
      modifies fs
      ensures fs.ops > old(fs.ops)
      ensures ok <==>
                Passable(old(fs.entries), BinDir(uid)) && dst !in old(fs.entries) &&
                AllWork(fs.faults, old(fs.ops), fs.ops)
      ensures ok ==> fs.entries == WithDirs(old(fs.entries), BinDir(uid))[dst := DirEntry]
      ensures !ok ==> DirsAdded(old(fs.entries), fs.entries, BinDir(uid)) && Closed(fs.entries)
    {
      ghost var b := State();
      ok := fs.CreateDirAll(BinDir(uid));
      if ok {
        ReadyToMove(b, uid, [], dst);
        NotOnTheWay(b.es, BinDir(uid), dst);
        ok := fs.CreateDir(dst);
      }
    }

    // Copies into the new directory `dst`; a failed copy is removed with it.
    method CopyOrRollBack(src: Path, dst: Path, ghost es: Entries) returns (ok: bool)
      requires Closed(es) && dst !in es && fs.entries == es[dst := DirEntry]
      requires Closed(fs.entries) && EmptyDir(fs.entries, dst) && Disjoint(src, dst)
      modifies fs
      ensures fs.ops > old(fs.ops)
      ensures ok <==>
                src in es && es[src].DirEntry? && OnlyFilesAndDirs(old(fs.entries), src) &&
                AllWork(fs.faults, old(fs.ops), fs.ops)
      ensures ok ==> fs.entries == Grafted(old(fs.entries), src, dst)
      ensures !ok && FaultAt(fs.faults, fs.ops - 1).Works? ==> fs.entries == es
      ensures Extends(es, fs.entries) && Closed(fs.entries) && SameOutside(es, fs.entries, dst)
    {
      ghost var ops0 := fs.ops;
      ok := CopyDirRecursive(fs, src, dst);
      RollbackRestores(es, fs.entries, dst);
      if !ok {
        ghost var es' := fs.entries;
        var removed := fs.RemoveDirAll(dst);
        RemovalKeeps(es, es', fs.entries, dst);
      }
    }

    method CheckDirectory(src: Path) returns (r: Outcome<TrashError>)
      requires Closed(fs.entries) && src != []
      modifies fs`ops
      ensures fs.ops == old(fs.ops) + 1
      ensures r.Done? <==> AllWork(fs.faults, old(fs.ops), fs.ops) && src in fs.entries && fs.entries[src].DirEntry?
      ensures r.Failed? ==> r.error == Io || r.error == SourceMissing
      ensures r == Failed(Io) && FaultAt(fs.faults, old(fs.ops)).Works? ==> !Passable(fs.entries, Parent(src))
    {
      if src in fs.entries {
        ReachablePassable(fs.entries, src);
      }
      var md := fs.Metadata(src);
      if md.None? {
        return Failed(Io);
      }
      return if md.value == Some(DirEntry) then Done else Failed(SourceMissing);
    }

    method SoftDeleteDirectoryFromPath(uid: string, location: Path, basename: string, src: Path, fileid: Option<nat>,
                                       now: nat)
      returns (r: Result<nat, TrashError>)
      requires Closed(fs.entries) && AtHome(src)
      modifies this, fs
      ensures fs.ops >= old(fs.ops) && Extends(old(fs.entries), fs.entries)
      ensures
        var e := NewEntry(old(rows), uid, location, basename, true, fileid, now);
        && (r.Ok? <==> LegalSegment(basename) && CanCopyInto(old(fs.entries), BinDir(uid), src, RowPath(e)) &&
                       RowFree(old(rows), e) && AllWork(fs.faults, old(fs.ops), fs.ops))
        && (r.Ok? ==> r.value == old(nextId) &&
                      State() == Recorded(old(State()), CopiedInto(old(fs.entries), BinDir(uid), src, RowPath(e)), e))
      ensures r.Ok? ==> r.value in rows && Describes(rows[r.value], uid, location, basename, true, fileid, now)
      ensures r.Err? ==> rows == old(rows) && nextId == old(nextId)
      ensures r == Err(Io) ==>
                fs.ops > 0 &&
                (FaultAt(fs.faults, fs.ops - 1).Works? ==> DirsAdded(old(fs.entries), fs.entries, BinDir(uid)))
      ensures Reaches(old(State()), State(), CopyInTheWay(old(State()), uid, basename, now))
    {
      ghost var b, ops0 := State(), fs.ops;
      Unmoved(b, CopyInTheWay(b, uid, basename, now));
      if !LegalSegment(basename) {
        return Err(SourceMissing);
      }
      var dir := CheckDirectory(src);
      if dir.Failed? {
        return Err(dir.error);
      }
      ghost var ops1 := fs.ops;
      r := CountThenStage(uid, location, basename, src, fileid, now);
      WorkTogether(fs.faults, ops0, ops1, fs.ops);
    }

    // The suffix is counted in the database, then the tree is copied and recorded.
    method CountThenStage(uid: string, location: Path, basename: string, src: Path, fileid: Option<nat>, now: nat)
      returns (r: Result<nat, TrashError>)
      requires Closed(fs.entries) && AtHome(src)
      modifies this, fs
      ensures fs.ops > old(fs.ops) && Extends(old(fs.entries), fs.entries)
      ensures
        var e := NewEntry(old(rows), uid, location, basename, true, fileid, now);
        && (r.Ok? <==>
              CanCopyInto(old(fs.entries), BinDir(uid), src, RowPath(e)) && RowFree(old(rows), e) &&
              AllWork(fs.faults, old(fs.ops), fs.ops))
        && (r.Ok? ==> r.value == old(nextId) &&
                      State() == Recorded(old(State()), CopiedInto(old(fs.entries), BinDir(uid), src, RowPath(e)), e))
      ensures r.Err? ==> rows == old(rows) && nextId == old(nextId)
      ensures r == Err(Io) && FaultAt(fs.faults, fs.ops - 1).Works? ==>
                DirsAdded(old(fs.entries), fs.entries, BinDir(uid))
      ensures Reaches(old(State()), State(), CopyInTheWay(old(State()), uid, basename, now))
    {
      ghost var b, ops0 := State(), fs.ops;
      var f := fs.Tick();
      OneWorks(fs.faults, ops0);
      if f.Fails? {
        Unmoved(b, CopyInTheWay(b, uid, basename, now));
        return Err(Db);
      }
      ghost var ops1 := fs.ops;
      r := StageTreeAndRecord(src, NewEntry(rows, uid, location, basename, true, fileid, now));
      WorkTogether(fs.faults, ops0, ops1, fs.ops);
      CopyReaches(b, uid, location, basename, true, fileid, now, fs.entries, r.Ok?);
    }

    method StageTreeAndRecord(src: Path, e: TrashEntry) returns (r: Result<nat, TrashError>)
      requires Closed(fs.entries) && AtHome(src)
      modifies this, fs
      ensures fs.ops > old(fs.ops) && Extends(old(fs.entries), fs.entries)
      ensures r.Ok? <==> CanCopyInto(old(fs.entries), BinDir(e.user), src, RowPath(e)) && RowFree(old(rows), e) &&
                         AllWork(fs.faults, old(fs.ops), fs.ops)
      ensures r.Ok? ==> r.value == old(nextId) &&
                        State() == Recorded(old(State()), CopiedInto(old(fs.entries), BinDir(e.user), src, RowPath(e)),
                                            e)
      ensures r.Err? ==> rows == old(rows) && nextId == old(nextId) && (r.error.Io? || r.error.Db?)
      ensures r == Err(Io) && FaultAt(fs.faults, fs.ops - 1).Works? ==>
                DirsAdded(old(fs.entries), fs.entries, BinDir(e.user))
      ensures StagedAt(old(fs.entries), fs.entries, e.user, RowPath(e))
    {
      ghost var ops0 := fs.ops;
      var staged := StageTree(e.user, src, RowPath(e));
      if !staged {
        return Err(Io);
      }
      ghost var ops1 := fs.ops;
      r := InsertRow(e);
      WorkTogether(fs.faults, ops0, ops1, fs.ops);
    }

    // The first free of the hundred candidate names in `dir`.
    method PickNonCollidingName(dir: Path, basename: string) returns (r: Result<string, TrashError>)
      requires dir in fs.entries && fs.entries[dir].DirEntry? && Closed(fs.entries)
      modifies fs`ops
      ensures fs.ops > old(fs.ops)
      ensures
        var n := FirstFree(fs.entries, dir, basename, 0);
        && (r.Ok? <==> n.Some? && AllWork(fs.faults, old(fs.ops), fs.ops))
        && (r.Ok? ==> r.value == Candidate(basename, n.value))
        && (r.Err? ==> r.error == Io || (r.error == RestoreCollision && n.None?))
    {
      ghost var ops0 := fs.ops;
      var n := 0;
      while n <= RESTORE_COLLISION_CAP
        invariant 0 <= n <= RESTORE_COLLISION_CAP + 1 && fs.ops == ops0 + n && AllWork(fs.faults, ops0, fs.ops)
        invariant FirstFree(fs.entries, dir, basename, 0) == FirstFree(fs.entries, dir, basename, n)
      {
        var name := Candidate(basename, n);
        BelowDirPassable(fs.entries, dir, name);
        ghost var ops1 := fs.ops;
        var taken := fs.TryExists(dir + [name]);
        OneWorks(fs.faults, ops1);
        WorkTogether(fs.faults, ops0, ops1, fs.ops);
        if taken.None? {
          return Err(Io);
        }
        if !taken.value {
          return Ok(name);
        }
        n := n + 1;
      }
      return Err(RestoreCollision);
    }

    method Restore(uid: string, id: nat, dest: Option<Path>) returns (r: Result<Path, TrashError>)
      requires Closed(fs.entries) && (dest.Some? ==> Segments(dest.value))
      modifies this, fs
      ensures fs.ops > old(fs.ops)
      ensures r.Ok? <==> CanRestore(old(State()), uid, id, dest) && AllWork(fs.faults, old(fs.ops), fs.ops)
      ensures r.Ok? ==> r.value == RestoredTo(old(State()), uid, id, dest) &&
                        State() == Bin(MovedBack(old(State()), uid, id, dest), old(rows) - {id}, old(nextId))
      ensures r == Err(NotFound) ==> id !in old(rows)
      ensures r == Err(WrongUser) ==> id in old(rows) && old(rows)[id].user != uid
      // An explicit destination, if nothing is there, is where the entry goes; otherwise it is
      // given the first free of its candidate names in the same directory.
      ensures r.Ok? && dest.Some? && dest.value != [] ==>
                FirstFreeBeside(old(fs.entries), uid, dest.value, r.value) && Parent(r.value) == Parent(dest.value) &&
                (HomePath(uid, dest.value) !in old(fs.entries) <==> r.value == dest.value)
      ensures r.Ok? && dest == Some([]) ==>
                FirstFreeBeside(old(fs.entries), uid, [old(rows)[id].basename], r.value)
      ensures r.Ok? && dest == None ==>
                FirstFreeBeside(old(fs.entries), uid, old(rows)[id].location + [old(rows)[id].basename], r.value)
      ensures r == Err(RestoreCollision) ==>
                && id in old(rows)
                && (dest == None ==> AllTaken(fs.entries, uid, old(rows)[id].location + [old(rows)[id].basename]))
                && (dest == Some([]) ==> AllTaken(fs.entries, uid, [old(rows)[id].basename]))
                && (dest.Some? && dest.value != [] ==> AllTaken(fs.entries, uid, dest.value))
      ensures r.Err? ==> rows == old(rows) && nextId == old(nextId)
      ensures r.Err? && fs.entries != old(fs.entries) ==>
                id in old(rows) &&
                (DirsAdded(old(fs.entries), fs.entries, HomePath(uid, TargetDir(old(rows)[id], dest))) ||
                 (r.error.Db? && CanRestore(old(State()), uid, id, dest) &&
                  fs.entries == MovedBack(old(State()), uid, id, dest)))
      ensures Reaches(old(State()), State(), {id})
    {
      ghost var b, ops0 := State(), fs.ops;
      Unmoved(b, {id});
      var f := fs.Tick();
      OneWorks(fs.faults, ops0);
      if f.Fails? {
        return Err(Db);
      }
      if id !in rows {
        return Err(NotFound);
      }
      var e := rows[id];
      if e.user != uid {
        return Err(WrongUser);
      }
      if dest.Some? && !LegalPath(dest.value) {
        return Err(SourceMissing);
      }
      ghost var ops1 := fs.ops;
      var moved := MoveFromBin(uid, e, TargetDir(e, dest), TargetName(e, dest));
      WorkTogether(fs.faults, ops0, ops1, fs.ops);
      if moved.Err? {
        DirsReach(b, fs.entries, HomePath(uid, TargetDir(e, dest)), {id});
        if moved.error == RestoreCollision {
          TargetTaken(fs.entries, uid, e, dest);
        }
        return Err(moved.error);
      }
      ghost var ops2 := fs.ops;
      f := fs.Tick();
      OneWorks(fs.faults, ops2);
      WorkTogether(fs.faults, ops0, ops2, fs.ops);
      RestoreReaches(b, uid, id, dest, f.Works?);
      RestoredBeside(b, uid, id, dest);
      if f.Fails? {
        return Err(Db);
      }
      rows := rows - {id};
      return Ok(moved.value);
    }

    method MoveFromBin(uid: string, e: TrashEntry, rel: Path, basename: string) returns (r: Result<Path, TrashError>)
      requires Closed(fs.entries) && e.user == uid
      modifies fs
      ensures fs.ops > old(fs.ops)
      ensures
        var dir, es := HomePath(uid, rel), old(fs.entries);
        var n := FirstFree(WithDirs(es, dir), dir, basename, 0);
        && (r.Ok? <==> Passable(es, dir) && n.Some? && RowPath(e) in es && AllWork(fs.faults, old(fs.ops), fs.ops))
        && (r.Ok? ==> r.value == rel + [Candidate(basename, n.value)] &&
                      fs.entries == Renamed(WithDirs(es, dir), RowPath(e), HomePath(uid, r.value)))
        && (r == Err(RestoreCollision) ==>
              forall k :: 0 <= k <= RESTORE_COLLISION_CAP ==> dir + [Candidate(basename, k)] in fs.entries)
        && (r.Err? ==>
              DirsAdded(es, fs.entries, dir) && Closed(fs.entries) &&
              (r.error == Io || r.error == SourceMissing || r.error == RestoreCollision))
    {
      ghost var es, ops0 := fs.entries, fs.ops;
      var dir := HomePath(uid, rel);
      var made := fs.CreateDirAll(dir);
      OneWorks(fs.faults, ops0);
      if !made {
        return Err(Io);
      }
      WithDirsFacts(es, dir);
      ghost var es1, ops1 := fs.entries, fs.ops;
      FirstFreeIs(es1, dir, basename, 0);
      var name := PickNonCollidingName(dir, basename);
      WorkTogether(fs.faults, ops0, ops1, fs.ops);
      if name.Err? {
        return Err(name.error);
      }
      ghost var ops2 := fs.ops;
      r := TakeFromBin(es, e, dir + [name.value], rel + [name.value]);
      WorkTogether(fs.faults, ops0, ops2, fs.ops);
    }

    method TakeFromBin(ghost es: Entries, e: TrashEntry, dst: Path, rel: Path) returns (r: Result<Path, TrashError>)
      requires rel != [] && dst == HomePath(e.user, rel) && Passable(es, Parent(dst)) &&
               fs.entries == WithDirs(es, Parent(dst))
      requires Closed(es) && dst !in fs.entries
      modifies fs
      ensures fs.ops > old(fs.ops)
      ensures r.Ok? <==> RowPath(e) in es && AllWork(fs.faults, old(fs.ops), fs.ops)
      ensures r.Ok? ==> r.value == rel && fs.entries == Renamed(old(fs.entries), RowPath(e), dst)
      ensures r.Err? ==> fs.entries == old(fs.entries) && (r.error == Io || r.error == SourceMissing)
    {
      ghost var ops0 := fs.ops;
      var src := RowPath(e);
      ReadyToReturn(es, e.user, src, rel);
      var there := fs.TryExists(src);
      OneWorks(fs.faults, ops0);
      if there.None? {
        return Err(Io);
      }
      if !there.value {
        return Err(SourceMissing);
      }
      ghost var ops1 := fs.ops;
      var moved := fs.Rename(src, dst);
      OneWorks(fs.faults, ops1);
      WorkTogether(fs.faults, ops0, ops1, fs.ops);
      return if moved then Ok(rel) else Err(Io);
    }

    method Purge(uid: string, id: nat) returns (r: Outcome<TrashError>)
      requires Closed(fs.entries)
      modifies this, fs
      ensures fs.ops > old(fs.ops)
      ensures r.Done? <==> id in old(rows) && old(rows)[id].user == uid && CanPurge(old(fs.entries), old(rows)[id]) &&
                           AllWork(fs.faults, old(fs.ops), fs.ops)
      ensures r.Done? ==> State() == Bin(Without(old(fs.entries), RowPath(old(rows)[id])), old(rows) - {id},
                                         old(nextId))
      ensures r == Failed(WrongUser) ==> id in old(rows) && old(rows)[id].user != uid
      ensures r.Failed? ==> rows == old(rows) && nextId == old(nextId)
      ensures r.Failed? && fs.entries != old(fs.entries) ==>
                id in old(rows) && old(rows)[id].user == uid &&
                SameOutside(old(fs.entries), fs.entries, RowPath(old(rows)[id]))
      ensures Reaches(old(State()), State(), {id})
    {
      ghost var ops0 := fs.ops;
      Unmoved(State(), {id});
      var f := fs.Tick();
      OneWorks(fs.faults, ops0);
      if f.Fails? {
        return Failed(Db);
      }
      if id !in rows {
        return Failed(NotFound);
      }
      if rows[id].user != uid {
        return Failed(WrongUser);
      }
      ghost var ops1 := fs.ops;
      r := PurgeEntry(id);
      WorkTogether(fs.faults, ops0, ops1, fs.ops);
    }

    // Bytes first, then the row: a failure in between leaves the row, never unnamed bytes.
    method PurgeEntry(id: nat) returns (r: Outcome<TrashError>)
      requires Closed(fs.entries) && id in rows
      modifies this, fs
      ensures fs.ops > old(fs.ops)
      ensures r.Done? <==> CanPurge(old(fs.entries), old(rows)[id]) && AllWork(fs.faults, old(fs.ops), fs.ops)
      ensures r.Done? ==> State() == Bin(Without(old(fs.entries), RowPath(old(rows)[id])), old(rows) - {id},
                                         old(nextId))
      ensures r.Failed? ==> rows == old(rows) && nextId == old(nextId) && (r.error == Io || r.error == Db)
      ensures r.Failed? ==> SameOutside(old(fs.entries), fs.entries, RowPath(old(rows)[id]))
      ensures Closed(fs.entries) && Reaches(old(State()), State(), {id})
    {
      ghost var b, ops0 := State(), fs.ops;
      var removed := RemoveEntry(rows[id]);
      PurgeReaches(b, id, fs.entries, false);
      if !removed {
        return Failed(Io);
      }
      PurgeReaches(b, id, fs.entries, true);
      ghost var ops1 := fs.ops;
      var f := fs.Tick();
      OneWorks(fs.faults, ops1);
      WorkTogether(fs.faults, ops0, ops1, fs.ops);
      if f.Fails? {
        return Failed(Db);
      }
      rows := rows - {id};
      return Done;
    }

    method RemoveEntry(e: TrashEntry) returns (ok: bool)
      requires Closed(fs.entries)
      modifies fs
      ensures fs.ops > old(fs.ops)
      ensures ok <==> CanPurge(old(fs.entries), e) && AllWork(fs.faults, old(fs.ops), fs.ops)
      ensures ok ==> fs.entries == Without(old(fs.entries), RowPath(e))
      ensures SameOutside(old(fs.entries), fs.entries, RowPath(e)) && Closed(fs.entries)
    {
      ghost var ops0 := fs.ops;
      var src := RowPath(e);
      assert Parent(src) == BinDir(e.user);
      LeafRemoval(fs.entries, src);
      WithoutClosed(fs.entries, src);
      var there := fs.TryExists(src);
      OneWorks(fs.faults, ops0);
      if there != Some(true) {
        return there.Some?;
      }
      ghost var ops1 := fs.ops;
      if e.isDir {
        ok := fs.RemoveDirAll(src);
      } else {
        ok := fs.RemoveFile(src);
      }
      OneWorks(fs.faults, ops1);
      WorkTogether(fs.faults, ops0, ops1, fs.ops);
    }
  }

  // ---------- each call as steps of a run ----------

  // The entries a deletion or a copy would be in the way of: none, while suffixes are fresh.
  function InTheWay(b: Bin, uid: string, rel: Path, now: nat): set<nat> {
    if rel == [] then {} else Holders(b.rows, RowPath(DeletedEntry(b, uid, rel, false, None, now)))
  }

  function CopyInTheWay(b: Bin, uid: string, basename: string, now: nat): set<nat> {
    Holders(b.rows, RowPath(NewEntry(b.rows, uid, [], basename, false, None, now)))
  }

  // Nothing has changed but new directories, or something at the place of the copy.
  ghost predicate StagedAt(es: Entries, es': Entries, uid: string, dst: Path) {
    Closed(es') && (DirsAdded(es, es', BinDir(uid)) || (dst !in es && SameBins(es, es', dst)))
  }

  lemma Unmoved(b: Bin, ids: set<nat>)
    ensures Reaches(b, b, ids)
  {
    assert AllPermitted(b, []) && Run(b, []) == b && AllTouched(b, []) == {};
  }

  lemma DirsReach(b: Bin, es: Entries, d: Path, ids: set<nat>)
    requires Closed(es) && DirsAdded(b.es, es, d) && (AtHome(d) || exists uid :: d == BinDir(uid))
    ensures Reaches(b, Bin(es, b.rows, b.nextId), ids)
  {
    forall p | InBin(p)
      ensures p in es <==> p in b.es
    {
      assert p[1] == "files_trashbin" by {
        assert p[1] == BinDir(p[0])[1];
      }
      assert |p| <= |d| && AtHome(d) ==> d[..|p|][1] == "files";
    }
    BinsUntouched(b, es);
    ReachesMore(b, Bin(es, b.rows, b.nextId), {}, ids);
  }

  lemma DeleteReaches(b: Bin, uid: string, rel: Path, isDir: bool, fileid: Option<nat>, now: nat, recorded: bool)
    requires CanMoveToBin(b, uid, rel, now) &&
             (recorded ==> RowFree(b.rows, DeletedEntry(b, uid, rel, isDir, fileid, now)))
    ensures Reaches(b, Added(b, MovedToBin(b, uid, rel, now), DeletedEntry(b, uid, rel, isDir, fileid, now), recorded),
                    InTheWay(b, uid, rel, now))
  {
    OneOp(b, Delete(uid, rel, isDir, fileid, now, recorded));
  }

  lemma CopyReaches(b: Bin, uid: string, location: Path, basename: string, isDir: bool, fileid: Option<nat>, now: nat,
                    es: Entries, recorded: bool)
    requires var e := NewEntry(b.rows, uid, location, basename, isDir, fileid, now);
             StagedAt(b.es, es, uid, RowPath(e)) &&
               (recorded ==> RowFree(b.rows, e) && RowPath(e) !in b.es && SameBins(b.es, es, RowPath(e)))
    ensures Reaches(b, Added(b, es, NewEntry(b.rows, uid, location, basename, isDir, fileid, now), recorded),
                    CopyInTheWay(b, uid, basename, now))
  {
    var e := NewEntry(b.rows, uid, location, basename, isDir, fileid, now);
    if RowPath(e) !in b.es && SameBins(b.es, es, RowPath(e)) {
      OneOp(b, CopyIn(uid, location, basename, isDir, fileid, now, es, recorded));
    } else {
      DirsReach(b, es, BinDir(uid), CopyInTheWay(b, uid, basename, now));
    }
  }

  lemma RestoreReaches(b: Bin, uid: string, id: nat, dest: Option<Path>, dropped: bool)
    requires CanRestore(b, uid, id, dest)
    ensures Reaches(b, Removed(b, MovedBack(b, uid, id, dest), id, dropped), {id})
  {
    OneOp(b, Restore(uid, id, dest, dropped));
  }

  lemma PurgeReaches(b: Bin, id: nat, es: Entries, dropped: bool)
    requires id in b.rows && Closed(es) && SameOutside(b.es, es, RowPath(b.rows[id]))
    ensures Reaches(b, Removed(b, es, id, dropped), {id})
  {
    OneOp(b, Purge(id, es, dropped));
  }

  // Whatever a partial copy leaves behind lies at its own place.
  lemma StagedFileAt(es: Entries, uid: string, dst: Path, e: Entry)
    requires Closed(es) && Passable(es, BinDir(uid)) && BinDir(uid) < dst && Parent(dst) == BinDir(uid) && dst !in es
    ensures StagedAt(es, WithDirs(es, BinDir(uid))[dst := e], uid, dst)
  {
    var es1 := WithDirs(es, BinDir(uid));
    WithDirsFacts(es, BinDir(uid));
    NotOnTheWay(es, BinDir(uid), dst);
    AddClosed(es1, dst, e);
    BinsAfterDirs(es, uid);
    assert forall p :: InBin(p) && !(dst <= p) ==> p != dst;
  }

  lemma StagedDirsAt(es: Entries, uid: string)
    requires Closed(es) && Passable(es, BinDir(uid))
    ensures DirsAdded(es, WithDirs(es, BinDir(uid)), BinDir(uid)) && Closed(WithDirs(es, BinDir(uid)))
  {
    WithDirsFacts(es, BinDir(uid));
  }

  lemma BinsAfterDirs(es: Entries, uid: string)
    ensures SameAllBins(es, WithDirs(es, BinDir(uid)))
  {
    forall p | InBin(p)
      ensures p in es <==> p in WithDirs(es, BinDir(uid))
    {
      InBinNotHome(p, uid, []);
    }
  }

  lemma StagedTreeAt(es: Entries, uid: string, dst: Path, es': Entries)
    requires dst !in es && Closed(es') && SameOutside(WithDirs(es, BinDir(uid)), es', dst)
    ensures StagedAt(es, es', uid, dst) && SameBins(es, es', dst)
  {
    BinsAfterDirs(es, uid);
  }
}
