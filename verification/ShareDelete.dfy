// Deleting through a share: the bytes live in the owner's home, the trash copy goes to the
// deleter's bin, and the source is removed only once the copy is complete and recorded.
module ShareDelete {
  import opened Wrappers
  import opened StoragePaths
  import opened PlainTree
  import opened Disks
  import opened TreeCopy
  import opened TrashNames
  import opened TrashSpec
  import opened TrashService
  import opened TrashRuns

  datatype FsError =
    | InvalidPath | PermissionDenied | NotFoundInShare | StorageFailed | PartialRemoval
    | TrashFailed(cause: TrashError)

  // The mount the deleter's path resolved to, and where its target lives.
  datatype Share = Share(owner: string, target: Path, permissions: Option<bool>, backendAllows: bool)

  function Source(share: Share): Path {
    HomePath(share.owner, share.target)
  }

  function CopyEntryRow(rows: TrashRows, uid: string, userPath: Path, isDir: bool, fileid: Option<nat>,
                        now: nat): TrashEntry
    requires userPath != []
  {
    NewEntry(rows, uid, Parent(userPath), Basename(userPath), isDir, fileid, now)
  }

  // What a share deletion needs besides operations that work.
  ghost predicate CanDeleteFile(b: Bin, share: Share, uid: string, userPath: Path, fileid: Option<nat>, now: nat) {
    && userPath != [] && LegalSegment(Basename(userPath)) && share.backendAllows
    && Source(share) in b.es && b.es[Source(share)].FileEntry? && Passable(b.es, BinDir(uid))
    && var e := CopyEntryRow(b.rows, uid, userPath, false, fileid, now); RowPath(e) !in b.es && RowFree(b.rows, e)
  }

  ghost predicate CanDeleteDirectory(b: Bin, share: Share, uid: string, userPath: Path, fileid: Option<nat>, now: nat) {
    && userPath != [] && LegalSegment(Basename(userPath)) && share.permissions == Some(true)
    && var e := CopyEntryRow(b.rows, uid, userPath, true, fileid, now);
       CanCopyInto(b.es, BinDir(uid), Source(share), RowPath(e)) && RowFree(b.rows, e)
  }

  // The tree that was at `src` is now at the place the row `id` names.
  ghost predicate HeldByRow(es: Entries, src: Path, b: Bin, id: nat) {
    id in b.rows && SameTree(es, src, b.es, RowPath(b.rows[id]))
  }

  // Everything outside `src` is still there.
  ghost predicate OthersKept(es: Entries, es': Entries, src: Path) {
    forall p :: p in es && !(src <= p) ==> p in es' && es'[p] == es[p]
  }

  class View {
    const uid: string
    const trash: Trash

    constructor (uid: string, trash: Trash)
      ensures this.uid == uid && this.trash == trash
    {
      this.uid := uid;
      this.trash := trash;
    }

    method Read(p: Path) returns (r: Option<seq<nat>>)
      modifies trash.fs`ops
      ensures trash.fs.ops == old(trash.fs.ops) + 1
      ensures r.Some? <==>
                AllWork(trash.fs.faults, old(trash.fs.ops), trash.fs.ops) && p in trash.fs.entries &&
                trash.fs.entries[p].FileEntry?
      ensures r.Some? ==> trash.fs.entries[p] == FileEntry(r.value)
    {
      var f := trash.fs.Tick();
      if f.Works? && p in trash.fs.entries && trash.fs.entries[p].FileEntry? {
        return Some(trash.fs.entries[p].content);
      }
      return None;
    }

    // The backend removes one file if it lets this deleter do so.
    method DeleteInBackend(share: Share) returns (r: Outcome<FsError>)
      modifies trash.fs
      ensures trash.fs.ops >= old(trash.fs.ops)
      ensures r.Done? ==> share.backendAllows && trash.fs.entries == old(trash.fs.entries) - {Source(share)}
      ensures r.Failed? ==> trash.fs.entries == old(trash.fs.entries)
      ensures r == Failed(PermissionDenied) <==> !share.backendAllows
      ensures r.Failed? ==> r.error == PermissionDenied || r.error == StorageFailed
      ensures Source(share) in old(trash.fs.entries) && old(trash.fs.entries)[Source(share)].FileEntry? ==>
                (r.Done? <==> share.backendAllows && AllWork(trash.fs.faults, old(trash.fs.ops), trash.fs.ops))
    {
      if !share.backendAllows {
        return Failed(PermissionDenied);
      }
      ghost var ops0 := trash.fs.ops;
      var ok := trash.fs.RemoveFile(Source(share));
      OneWorks(trash.fs.faults, ops0);
      return if ok then Done else Failed(StorageFailed);
    }

    // Taking the staged copy back out of the bin.
    method Unstage(id: nat, ghost es: Entries, ghost rows: TrashRows, ghost e: TrashEntry, ghost content: seq<nat>)
      requires Closed(es) && Passable(es, BinDir(uid)) && RowPath(e) !in es && e.user == uid && !e.isDir && id !in rows
      requires trash.fs.entries == WithDirs(es, BinDir(uid))[RowPath(e) := FileEntry(content)] &&
               trash.rows == rows[id := e]
      modifies trash, trash.fs
      ensures trash.fs.ops >= old(trash.fs.ops) && Extends(es, trash.fs.entries)
      ensures trash.rows == rows || trash.rows == rows[id := e]
      ensures AllWork(trash.fs.faults, old(trash.fs.ops), trash.fs.ops) ==>
                trash.rows == rows && DirsAdded(es, trash.fs.entries, BinDir(uid))
      ensures Reaches(old(trash.State()), trash.State(), {id})
    {
      StagedFile(es, uid, RowPath(e), content);
      ghost var staged := trash.fs.entries;
      var r := trash.Purge(uid, id);
      assert trash.rows == rows || trash.rows == rows[id := e] by {
        assert rows[id := e] - {id} == rows;
      }
      if r.Failed? {
        RemovalKeeps(es, staged, trash.fs.entries, RowPath(e));
      }
    }

    // The copy is staged: remove the source, or else take the copy back.
    method RemoveSource(share: Share, id: nat, ghost es: Entries, ghost rows: TrashRows, ghost e: TrashEntry,
                        ghost content: seq<nat>)
      returns (r: Outcome<FsError>)
      requires Closed(es) && Passable(es, BinDir(uid)) && RowPath(e) !in es && e.user == uid && !e.isDir && id !in rows
      requires trash.fs.entries == WithDirs(es, BinDir(uid))[RowPath(e) := FileEntry(content)] &&
               trash.rows == rows[id := e]
      requires Source(share) in trash.fs.entries && trash.fs.entries[Source(share)].FileEntry?
      modifies trash, trash.fs
      ensures trash.fs.ops >= old(trash.fs.ops)
      ensures r.Done? <==> share.backendAllows && AllWork(trash.fs.faults, old(trash.fs.ops), trash.fs.ops)
      ensures r.Done? ==>
                trash.State() == Bin(old(trash.fs.entries) - {Source(share)}, old(trash.rows), old(trash.nextId))
      ensures r.Failed? ==> Extends(es, trash.fs.entries) && (trash.rows == rows || trash.rows == rows[id := e])
      ensures r.Failed? && (AllWork(trash.fs.faults, old(trash.fs.ops), trash.fs.ops) ||
                            (share.backendAllows &&
                             AtMostOneFails(trash.fs.faults, old(trash.fs.ops), trash.fs.ops))) ==>
                trash.rows == rows && DirsAdded(es, trash.fs.entries, BinDir(uid))
      ensures r.Failed? ==> (r.error == PermissionDenied || r.error == StorageFailed)
      ensures r == Failed(PermissionDenied) <==> !share.backendAllows
      ensures Reaches(old(trash.State()), trash.State(), {id})
    {
      ghost var b, ops0 := trash.State(), trash.fs.ops;
      StagedFile(es, uid, RowPath(e), content);
      FileLeaves(b, Source(share), {id});
      r := DeleteInBackend(share);
      if r.Failed? {
        ghost var ops1 := trash.fs.ops;
        Unstage(id, es, rows, e, content);
        SecondFault(trash.fs.faults, ops0, ops0, ops1, trash.fs.ops);
        WorkTogether(trash.fs.faults, ops0, ops1, trash.fs.ops);
      }
    }

    // One file.  Success leaves exactly the trash copy, named by a new row; on every failure
    // the source and everything else is still there.  A deleter the backend refuses keeps
    // neither a row nor a copy, and the same after a failed removal, unless the clean-up
    // fails too.
    method DeleteViaShareMount(share: Share, userPath: Path, fileid: Option<nat>, now: nat)
      returns (r: Outcome<FsError>)
      requires Closed(trash.fs.entries) && Segments(userPath) && trash.nextId !in trash.rows
      modifies trash, trash.fs
      ensures trash.fs.ops >= old(trash.fs.ops)
      ensures r.Done? <==> CanDeleteFile(old(trash.State()), share, uid, userPath, fileid, now) &&
                           AllWork(trash.fs.faults, old(trash.fs.ops), trash.fs.ops)
      ensures r.Done? ==>
                var e := CopyEntryRow(old(trash.rows), uid, userPath, false, fileid, now);
                trash.State() == Recorded(old(trash.State()),
                                          WithDirs(old(trash.fs.entries), BinDir(uid))
                                            [RowPath(e) := old(trash.fs.entries)[Source(share)]] - {Source(share)}, e)
      // The row says what was deleted, and names a copy of the file.
      ensures r.Done? ==>
                && old(trash.nextId) in trash.rows
                && Describes(trash.rows[old(trash.nextId)], uid, Parent(userPath), Basename(userPath), false, fileid,
                             now)
                && RowPath(trash.rows[old(trash.nextId)]) in trash.fs.entries
                && trash.fs.entries[RowPath(trash.rows[old(trash.nextId)])] == old(trash.fs.entries)[Source(share)]
      ensures r.Failed? ==> Extends(old(trash.fs.entries), trash.fs.entries)
      ensures r.Failed? && trash.rows != old(trash.rows) ==>
                userPath != [] &&
                trash.rows == old(trash.rows)[old(trash.nextId) :=
                                CopyEntryRow(old(trash.rows), uid, userPath, false, fileid, now)]
      ensures r == Failed(PermissionDenied) && AllWork(trash.fs.faults, old(trash.fs.ops), trash.fs.ops) ==>
                trash.rows == old(trash.rows) && DirsAdded(old(trash.fs.entries), trash.fs.entries, BinDir(uid))
      ensures r == Failed(StorageFailed) && AtMostOneFails(trash.fs.faults, old(trash.fs.ops), trash.fs.ops) ==>
                trash.rows == old(trash.rows) && DirsAdded(old(trash.fs.entries), trash.fs.entries, BinDir(uid))
      ensures Reaches(old(trash.State()), trash.State(), StagedOver(old(trash.State()), uid, userPath, now))
    {
      ghost var fs := trash.fs;
      ghost var es, rows0, ops0 := fs.entries, trash.rows, fs.ops;
      ghost var b, ids := trash.State(), StagedOver(trash.State(), uid, userPath, now);
      Unmoved(b, ids);
      var content := Read(Source(share));
      if content.None? {
        return Failed(StorageFailed);
      }
      if userPath == [] {
        return Failed(InvalidPath);
      }
      ghost var e := CopyEntryRow(trash.rows, uid, userPath, false, fileid, now);
      ghost var ops1 := fs.ops;
      var id := trash.SoftDeleteFromReader(uid, Parent(userPath), Basename(userPath), false, fileid, now,
                                           content.value);
      WorkTogether(fs.faults, ops0, ops1, fs.ops);
      ghost var b1 := trash.State();
      ReachesMore(b, b1, CopyInTheWay(b, uid, Basename(userPath), now), ids);
      if id.Err? {
        return Failed(TrashFailed(id.error));
      }
      SourceApart(es, share, uid, RowPath(e), content.value);
      ghost var ops2 := fs.ops;
      r := RemoveSource(share, id.value, es, rows0, e, content.value);
      WorkTogether(fs.faults, ops0, ops2, fs.ops);
      ReachesOn(b, b1, trash.State(), ids, {id.value});
      ReachesMore(b, trash.State(), ids + {id.value}, ids);
    }

    method StageDirectory(src: Path, userPath: Path, fileid: Option<nat>, now: nat) returns (r: Result<nat, TrashError>)
      requires Closed(trash.fs.entries) && userPath != [] && AtHome(src)
      modifies trash, trash.fs
      ensures trash.fs.ops >= old(trash.fs.ops) && Extends(old(trash.fs.entries), trash.fs.entries)
      ensures r.Err? ==> trash.rows == old(trash.rows)
      ensures r.Ok? <==>
                LegalSegment(Basename(userPath)) &&
                AllWork(trash.fs.faults, old(trash.fs.ops), trash.fs.ops) &&
                var e := CopyEntryRow(old(trash.rows), uid, userPath, true, fileid, now);
                CanCopyInto(old(trash.fs.entries), BinDir(uid), src, RowPath(e)) && RowFree(old(trash.rows), e)
      ensures r.Ok? ==>
                var e := CopyEntryRow(old(trash.rows), uid, userPath, true, fileid, now);
                && CanCopyInto(old(trash.fs.entries), BinDir(uid), src, RowPath(e))
                && trash.State() == Recorded(old(trash.State()),
                                             CopiedInto(old(trash.fs.entries), BinDir(uid), src, RowPath(e)), e)
                && SameTree(old(trash.fs.entries), src, trash.fs.entries, RowPath(e)) && Closed(trash.fs.entries)
      ensures Reaches(old(trash.State()), trash.State(), CopyInTheWay(old(trash.State()), uid, Basename(userPath), now))
    {
      ghost var es := trash.fs.entries;
      ghost var e := CopyEntryRow(trash.rows, uid, userPath, true, fileid, now);
      r := trash.SoftDeleteDirectoryFromPath(uid, Parent(userPath), Basename(userPath), src, fileid, now);
      if r.Ok? {
        CopiedIntoFacts(es, uid, src, RowPath(e));
        CopiedIntoClosed(es, uid, src, RowPath(e));
      }
    }

    // The copy of `src` as it was in `es` is at `at`: remove the original.
    method RemoveOriginal(src: Path, ghost es: Entries, ghost at: Path) returns (ok: bool)
      requires Closed(trash.fs.entries) && AtHome(src) && BinDir(uid) < at
      requires SameTree(es, src, trash.fs.entries, at) && Extends(es, trash.fs.entries)
      modifies trash.fs
      ensures trash.fs.ops == old(trash.fs.ops) + 1
      ensures ok <==>
                AllWork(trash.fs.faults, old(trash.fs.ops), trash.fs.ops) && src in old(trash.fs.entries) &&
                old(trash.fs.entries)[src].DirEntry?
      ensures ok ==> trash.fs.entries == Without(old(trash.fs.entries), src) && src !in trash.fs.entries
      ensures SameTree(es, src, trash.fs.entries, at) && OthersKept(es, trash.fs.entries, src)
      ensures Reaches(old(trash.State()), trash.State(), {})
    {
      ghost var b, ops0 := trash.State(), trash.fs.ops;
      ok := trash.fs.RemoveDirAll(src);
      OneWorks(trash.fs.faults, ops0);
      TreeLeaves(b, trash.fs.entries, src);
      CopySurvives(es, b.es, trash.fs.entries, src, at, uid);
    }

    // A directory.  The deleter's permission is checked before anything is copied.  If
    // removing the source fails midway the row stays: it names a complete copy.
    method DeleteDirectoryViaShareMount(share: Share, userPath: Path, fileid: Option<nat>, now: nat)
      returns (r: Outcome<FsError>)
      requires Closed(trash.fs.entries) && Segments(userPath) && trash.nextId !in trash.rows
      modifies trash, trash.fs
      ensures trash.fs.ops >= old(trash.fs.ops)
      ensures r.Done? <==> CanDeleteDirectory(old(trash.State()), share, uid, userPath, fileid, now) &&
                           AllWork(trash.fs.faults, old(trash.fs.ops), trash.fs.ops)
      ensures r.Done? ==>
                var es, e := old(trash.fs.entries), CopyEntryRow(old(trash.rows), uid, userPath, true, fileid, now);
                && trash.State() == Recorded(old(trash.State()),
                                             Without(CopiedInto(es, BinDir(uid), Source(share), RowPath(e)),
                                                     Source(share)), e)
                && HeldByRow(es, Source(share), trash.State(), old(trash.nextId)) && Source(share) !in trash.fs.entries
                && Describes(trash.rows[old(trash.nextId)], uid, Parent(userPath), Basename(userPath), true, fileid,
                             now)
      ensures r.Failed? && trash.rows == old(trash.rows) ==> Extends(old(trash.fs.entries), trash.fs.entries)
      ensures trash.rows != old(trash.rows) ==>
                && HeldByRow(old(trash.fs.entries), Source(share), trash.State(), old(trash.nextId))
                && OthersKept(old(trash.fs.entries), trash.fs.entries, Source(share))
      ensures share.permissions != Some(true) ==> r.Failed? && trash.State() == old(trash.State())
      ensures r == Failed(PermissionDenied) <==> userPath != [] && share.permissions != Some(true)
      ensures Reaches(old(trash.State()), trash.State(), StagedOver(old(trash.State()), uid, userPath, now))
    {
      ghost var b, ids := trash.State(), StagedOver(trash.State(), uid, userPath, now);
      Unmoved(b, ids);
      if userPath == [] {
        return Failed(InvalidPath);
      }
      if share.permissions != Some(true) {
        return Failed(PermissionDenied);
      }
      r := CopyThenRemove(Source(share), userPath, fileid, now);
    }

    method CopyThenRemove(src: Path, userPath: Path, fileid: Option<nat>, now: nat) returns (r: Outcome<FsError>)
      requires Closed(trash.fs.entries) && userPath != [] && AtHome(src) && trash.nextId !in trash.rows
      modifies trash, trash.fs
      ensures trash.fs.ops >= old(trash.fs.ops)
      ensures r.Done? <==>
                LegalSegment(Basename(userPath)) &&
                AllWork(trash.fs.faults, old(trash.fs.ops), trash.fs.ops) &&
                var e := CopyEntryRow(old(trash.rows), uid, userPath, true, fileid, now);
                CanCopyInto(old(trash.fs.entries), BinDir(uid), src, RowPath(e)) &&
                RowFree(old(trash.rows), e)
      ensures r.Done? ==>
                var es, e := old(trash.fs.entries), CopyEntryRow(old(trash.rows), uid, userPath, true, fileid, now);
                && trash.State() == Recorded(old(trash.State()),
                                             Without(CopiedInto(es, BinDir(uid), src, RowPath(e)), src), e)
                && src !in trash.fs.entries
      ensures r.Failed? && trash.rows == old(trash.rows) ==> Extends(old(trash.fs.entries), trash.fs.entries)
      ensures r.Done? || trash.rows != old(trash.rows) ==>
                && HeldByRow(old(trash.fs.entries), src, trash.State(), old(trash.nextId))
                && OthersKept(old(trash.fs.entries), trash.fs.entries, src)
      ensures r.Failed? ==> r.error != PermissionDenied
      ensures Reaches(old(trash.State()), trash.State(), StagedOver(old(trash.State()), uid, userPath, now))
    {
      ghost var es, ops0 := trash.fs.entries, trash.fs.ops;
      ghost var b, ids := trash.State(), StagedOver(trash.State(), uid, userPath, now);
      ghost var e := CopyEntryRow(trash.rows, uid, userPath, true, fileid, now);
      var id := StageDirectory(src, userPath, fileid, now);
      ghost var b1, ops1 := trash.State(), trash.fs.ops;
      ReachesMore(b, b1, CopyInTheWay(b, uid, Basename(userPath), now), ids);
      if id.Err? {
        return Failed(TrashFailed(id.error));
      }
      SourceStays(es, b1.es, src);
      var removed := RemoveOriginal(src, es, RowPath(e));
      WorkTogether(trash.fs.faults, ops0, ops1, trash.fs.ops);
      ReachesOn(b, b1, trash.State(), ids, {});
      assert ids + {} == ids;
      return if removed then Done else Failed(PartialRemoval);
    }
  }

  // The entries a share deletion can affect: its own new one, and any in the way of it.
  function StagedOver(b: Bin, uid: string, userPath: Path, now: nat): set<nat> {
    {b.nextId} + CopyInTheWay(b, uid, Basename(userPath), now)
  }

  lemma FileLeaves(b: Bin, p: Path, ids: set<nat>)
    requires Closed(b.es) && AtHome(p) && p in b.es && !b.es[p].DirEntry?
    ensures Reaches(b, Bin(b.es - {p}, b.rows, b.nextId), ids) && Reaches(b, b, ids)
  {
    LeafRemoval(b.es, p);
    WithoutClosed(b.es, p);
    TreeLeaves(b, b.es - {p}, p);
    ReachesMore(b, Bin(b.es - {p}, b.rows, b.nextId), {}, ids);
    Unmoved(b, ids);
  }

  // What goes away below a home directory touches no trashbin.
  lemma TreeLeaves(b: Bin, es: Entries, src: Path)
    requires AtHome(src) && Closed(es) && SameOutside(b.es, es, src)
    ensures Reaches(b, Bin(es, b.rows, b.nextId), {})
  {
    forall p | InBin(p)
      ensures !(src <= p)
    {
      HomeAndBinApart(src, p[0], p);
    }
    BinsUntouched(b, es);
  }

  lemma CopiedIntoClosed(es: Entries, uid: string, src: Path, dst: Path)
    requires Closed(es) && AtHome(src) && CanCopyInto(es, BinDir(uid), src, dst) && BinDir(uid) < dst &&
             Parent(dst) == BinDir(uid)
    ensures Closed(CopiedInto(es, BinDir(uid), src, dst))
  {
    var es2 := WithDirs(es, BinDir(uid))[dst := DirEntry];
    ReadyToCopy(es, uid, src, dst);
    GraftedClosed(es2, src, dst);
  }

  lemma GraftedClosed(es: Entries, src: Path, dst: Path)
    requires Closed(es) && src in es && es[src].DirEntry? && EmptyDir(es, dst) && Disjoint(src, dst)
    ensures Closed(Grafted(es, src, dst))
  {
    var es' := Grafted(es, src, dst);
    forall p | p in es'
      ensures InDir(es', p)
    {
      if dst < p {
        var q := Subst(dst, src, p);
        assert InDir(es, q);
        var r := Parent(p)[|dst|..];
        assert Parent(p) == dst + r && Parent(q) == src + r;
        GraftedEntry(es, src, dst, r);
      } else {
        assert InDir(es, p);
      }
    }
  }

  lemma SourceStays(es: Entries, es': Entries, src: Path)
    requires Extends(es, es')
    ensures src in es && es[src].DirEntry? ==> src in es' && es'[src].DirEntry?
  {
  }

  // Removing the source, wholly or partly, does not touch the copy.
  lemma CopySurvives(es: Entries, es1: Entries, es2: Entries, src: Path, at: Path, uid: string)
    requires AtHome(src) && BinDir(uid) < at && SameTree(es, src, es1, at) && Extends(es, es1) &&
             SameOutside(es1, es2, src)
    ensures SameTree(es, src, es2, at)
    ensures OthersKept(es, es2, src)
  {
    forall r: Path
      ensures SameEntry(es, src, es2, at, r)
    {
      assert SameEntry(es, src, es1, at, r);
      assert BinDir(uid) <= at + r;
      HomeAndBinApart(src, uid, at + r);
    }
  }

  ghost predicate AtMostOneFails(faults: seq<Fault>, from: nat, to: nat) {
    forall j, k :: from <= j < to && from <= k < to && FaultAt(faults, j).Fails? && FaultAt(faults, k).Fails? ==> j == k
  }

  lemma SecondFault(faults: seq<Fault>, a: nat, b: nat, c: nat, d: nat)
    requires a <= b <= c <= d
    ensures AtMostOneFails(faults, a, d) ==> AllWork(faults, b, c) || AllWork(faults, c, d)
  {
  }

  lemma SourceApart(es: Entries, share: Share, uid: string, at: Path, content: seq<nat>)
    requires BinDir(uid) < at && Source(share) in es
    ensures
      var es' := WithDirs(es, BinDir(uid))[at := FileEntry(content)];
      Source(share) in es' && es'[Source(share)] == es[Source(share)]
  {
    HomeAndBinApart(Source(share), uid, at);
    DirsOffHome(es, uid, Source(share));
  }

  lemma StagedFile(es: Entries, uid: string, at: Path, content: seq<nat>)
    requires Closed(es) && Passable(es, BinDir(uid)) && at !in es && BinDir(uid) < at && Parent(at) == BinDir(uid)
    ensures
      var es' := WithDirs(es, BinDir(uid))[at := FileEntry(content)];
      Closed(es') && Extends(es, es') && DirsAdded(es, Without(es', at), BinDir(uid)) && Passable(es', BinDir(uid))
  {
    var es1 := WithDirs(es, BinDir(uid));
    var es' := es1[at := FileEntry(content)];
    WithDirsFacts(es, BinDir(uid));
    NotOnTheWay(es, BinDir(uid), at);
    VacantAt(es1, at);
    forall p | p in es'
      ensures InDir(es', p)
    {
      assert p != at ==> InDir(es1, p);
    }
    assert forall p :: p in es1 ==> !(at <= p);
    assert Without(es', at) == es1;
    ReachablePassable(es', at);
  }
}
