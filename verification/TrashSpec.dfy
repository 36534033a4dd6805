// What soft deletion, restore and purge do to the disk and the table of rows when they succeed.
module TrashSpec {
  import opened Wrappers
  import opened StoragePaths
  import opened PlainTree
  import opened Disks
  import opened TreeCopy
  import opened TrashNames

  datatype TrashError = SourceMissing | Io | Db | NotFound | WrongUser | RestoreCollision

  // What the disk and the table hold.
  datatype Bin = Bin(es: Entries, rows: TrashRows, nextId: nat)

  // ---------- places on the disk ----------

  function HomePath(uid: string, rel: Path): Path {
    [uid, "files"] + rel
  }

  function BinDir(uid: string): Path {
    [uid, "files_trashbin", "files"]
  }

  function BinPath(uid: string, basename: string, suffix: string): Path {
    BinDir(uid) + [TrashName(basename, suffix)]
  }

  function RowPath(e: TrashEntry): Path {
    BinPath(e.user, e.basename, e.suffix)
  }

  predicate AtHome(p: Path) {
    |p| >= 2 && p[1] == "files"
  }

  // What remains of a request path once it has been cut at its slashes.
  predicate Segments(p: Path) {
    forall i :: 0 <= i < |p| ==> p[i] != "" && p[i] != "." && '/' !in p[i]
  }

  lemma HomeAndBinApart(p: Path, uid: string, b: Path)
    requires AtHome(p) && (b == BinDir(uid) || BinDir(uid) <= b)
    ensures Disjoint(p, b) && !AtHome(b)
  {
    assert b[1] == BinDir(uid)[1];
  }

  // ---------- the successful outcomes ----------

  function NewEntry(rows: TrashRows, uid: string, location: Path, basename: string, isDir: bool, fileid: Option<nat>,
                    now: nat): TrashEntry {
    TrashEntry(uid, basename, UniqueSuffix(rows, uid, basename, now), location, now, isDir, fileid)
  }

  function Recorded(b: Bin, es: Entries, e: TrashEntry): Bin {
    Bin(es, b.rows[b.nextId := e], b.nextId + 1)
  }

  function DeletedEntry(b: Bin, uid: string, rel: Path, isDir: bool, fileid: Option<nat>, now: nat): TrashEntry
    requires rel != []
  {
    NewEntry(b.rows, uid, Parent(rel), Basename(rel), isDir, fileid, now)
  }

  function MovedToBin(b: Bin, uid: string, rel: Path, now: nat): Entries
    requires rel != []
  {
    Renamed(WithDirs(b.es, BinDir(uid)), HomePath(uid, rel), RowPath(DeletedEntry(b, uid, rel, false, None, now)))
  }

  predicate CanMoveToBin(b: Bin, uid: string, rel: Path, now: nat) {
    && LegalPath(rel) && rel != [] && Passable(b.es, BinDir(uid)) && HomePath(uid, rel) in b.es
    && Replaceable(WithDirs(b.es, BinDir(uid)), HomePath(uid, rel),
                   RowPath(DeletedEntry(b, uid, rel, false, None, now)))
  }

  predicate RowFree(rows: TrashRows, e: TrashEntry) {
    !Taken(rows, e.user, e.basename, e.suffix)
  }

  function TargetDir(e: TrashEntry, dest: Option<Path>): Path {
    match dest
    case None => e.location
    case Some(d) => if d == [] then [] else Parent(d)
  }

  function TargetName(e: TrashEntry, dest: Option<Path>): string {
    match dest
    case None => e.basename
    case Some(d) => if d == [] then e.basename else Basename(d)
  }

  // Where a restored entry is wanted: at an explicit destination, else at its old place; the
  // home itself as destination gives no name.
  lemma TargetIs(e: TrashEntry, dest: Option<Path>)
    ensures dest == None ==> TargetDir(e, dest) + [TargetName(e, dest)] == e.location + [e.basename]
    ensures dest == Some([]) ==> TargetDir(e, dest) + [TargetName(e, dest)] == [e.basename]
    ensures dest.Some? && dest.value != [] ==> TargetDir(e, dest) + [TargetName(e, dest)] == dest.value
  {
    if dest.Some? && dest.value != [] {
      assert Parent(dest.value) + [Basename(dest.value)] == dest.value;
    }
  }

  // The first of the hundred candidate names that is free, from the n-th on.
  function FirstFree(es: Entries, dir: Path, basename: string, n: nat): Option<nat>
    decreases RESTORE_COLLISION_CAP + 1 - n
  {
    if n > RESTORE_COLLISION_CAP then None
    else if dir + [Candidate(basename, n)] !in es then Some(n)
    else FirstFree(es, dir, basename, n + 1)
  }

  predicate CanRestore(b: Bin, uid: string, id: nat, dest: Option<Path>) {
    && id in b.rows && b.rows[id].user == uid && (dest.Some? ==> LegalPath(dest.value))
    && var dir := HomePath(uid, TargetDir(b.rows[id], dest));
       Passable(b.es, dir) && FirstFree(WithDirs(b.es, dir), dir, TargetName(b.rows[id], dest), 0).Some?
       && RowPath(b.rows[id]) in b.es
  }

  function RestoredTo(b: Bin, uid: string, id: nat, dest: Option<Path>): Path
    requires CanRestore(b, uid, id, dest)
  {
    var rel, name := TargetDir(b.rows[id], dest), TargetName(b.rows[id], dest);
    rel + [Candidate(name, FirstFree(WithDirs(b.es, HomePath(uid, rel)), HomePath(uid, rel), name, 0).value)]
  }

  function MovedBack(b: Bin, uid: string, id: nat, dest: Option<Path>): Entries
    requires CanRestore(b, uid, id, dest)
  {
    Renamed(WithDirs(b.es, HomePath(uid, TargetDir(b.rows[id], dest))), RowPath(b.rows[id]),
            HomePath(uid, RestoredTo(b, uid, id, dest)))
  }

  // Everything there was is still there.
  ghost predicate Extends(es: Entries, es': Entries) {
    forall p :: p in es ==> p in es' && es'[p] == es[p]
  }

  // ---------- small facts the service needs ----------

  lemma {:induction false} FirstFreeIs(es: Entries, dir: Path, basename: string, n: nat)
    requires n <= RESTORE_COLLISION_CAP + 1
    ensures
      match FirstFree(es, dir, basename, n)
      case None => forall k :: n <= k <= RESTORE_COLLISION_CAP ==> dir + [Candidate(basename, k)] in es
      case Some(m) =>
        && n <= m <= RESTORE_COLLISION_CAP && dir + [Candidate(basename, m)] !in es
        && forall k :: n <= k < m ==> dir + [Candidate(basename, k)] in es
    decreases RESTORE_COLLISION_CAP + 1 - n
  {
    if n <= RESTORE_COLLISION_CAP && dir + [Candidate(basename, n)] in es {
      FirstFreeIs(es, dir, basename, n + 1);
    }
  }

  // `to` is `want`, or in its directory under the first of its candidate names nothing has.
  ghost predicate FirstFreeBeside(es: Entries, uid: string, want: Path, to: Path)
    requires want != []
  {
    exists n :: 0 <= n <= RESTORE_COLLISION_CAP && TakenBefore(es, uid, want, n) &&
                to == Parent(want) + [Candidate(Basename(want), n)] && HomePath(uid, to) !in es
  }

  predicate TakenBefore(es: Entries, uid: string, want: Path, n: nat)
    requires want != []
  {
    forall k :: 0 <= k < n ==> HomePath(uid, Parent(want) + [Candidate(Basename(want), k)]) in es
  }

  lemma FreeBeside(es: Entries, uid: string, dir: Path, name: string)
    requires FirstFree(WithDirs(es, HomePath(uid, dir)), HomePath(uid, dir), name, 0).Some?
    ensures
      var n := FirstFree(WithDirs(es, HomePath(uid, dir)), HomePath(uid, dir), name, 0).value;
      && FirstFreeBeside(es, uid, dir + [name], dir + [Candidate(name, n)])
      && (HomePath(uid, dir + [name]) !in es ==> n == 0)
  {
    var at, es1 := HomePath(uid, dir), WithDirs(es, HomePath(uid, dir));
    FirstFreeIs(es1, at, name, 0);
    assert Parent(dir + [name]) == dir && Basename(dir + [name]) == name;
    forall k: nat
      ensures at + [Candidate(name, k)] == HomePath(uid, dir + [Candidate(name, k)])
      ensures at + [Candidate(name, k)] in es1 <==> at + [Candidate(name, k)] in es
    {
      NotOnTheWay(es, at, at + [Candidate(name, k)]);
    }
    var n := FirstFree(es1, at, name, 0).value;
    assert TakenBefore(es, uid, dir + [name], n);
    if n > 0 {
      assert at + [Candidate(name, 0)] in es1;
    }
  }

  // An explicit destination is taken as it is if nothing is there; otherwise the entry gets
  // the first free of the candidate names in the destination's directory.
  lemma RestoredBeside(b: Bin, uid: string, id: nat, dest: Option<Path>)
    requires CanRestore(b, uid, id, dest)
    ensures
      var e, to := b.rows[id], RestoredTo(b, uid, id, dest);
      && (dest.Some? && dest.value != [] ==>
            FirstFreeBeside(b.es, uid, dest.value, to) && Parent(to) == Parent(dest.value) &&
            (HomePath(uid, dest.value) !in b.es <==> to == dest.value))
      && (dest == Some([]) ==> FirstFreeBeside(b.es, uid, [e.basename], to))
      && (dest == None ==> FirstFreeBeside(b.es, uid, e.location + [e.basename], to))
  {
    var e := b.rows[id];
    TargetIs(e, dest);
    FreeBeside(b.es, uid, TargetDir(e, dest), TargetName(e, dest));
    if dest.Some? && dest.value != [] {
      assert Parent(dest.value) + [Basename(dest.value)] == dest.value;
    }
  }

  // The hundred candidate names of `want` are all taken.
  predicate AllTaken(es: Entries, uid: string, want: Path)
    requires want != []
  {
    TakenBefore(es, uid, want, RESTORE_COLLISION_CAP + 1)
  }

  lemma TargetTaken(es: Entries, uid: string, e: TrashEntry, dest: Option<Path>)
    requires forall n :: 0 <= n <= RESTORE_COLLISION_CAP ==>
                           HomePath(uid, TargetDir(e, dest)) + [Candidate(TargetName(e, dest), n)] in es
    ensures dest == None ==> AllTaken(es, uid, e.location + [e.basename])
    ensures dest == Some([]) ==> AllTaken(es, uid, [e.basename])
    ensures dest.Some? && dest.value != [] ==> AllTaken(es, uid, dest.value)
  {
    var dir, name := TargetDir(e, dest), TargetName(e, dest);
    TargetIs(e, dest);
    assert Parent(dir + [name]) == dir && Basename(dir + [name]) == name;
    forall n: nat
      ensures HomePath(uid, dir) + [Candidate(name, n)] == HomePath(uid, dir + [Candidate(name, n)])
    {
    }
  }

  // What a row says about the deletion that made it.
  predicate Describes(e: TrashEntry, uid: string, location: Path, basename: string, isDir: bool, fileid: Option<nat>,
                      now: nat) {
    && e.user == uid && e.location == location && e.basename == basename && e.isDir == isDir && e.fileid == fileid
    && e.deletedAt == now
  }

  lemma DirsOffHome(es: Entries, uid: string, p: Path)
    requires AtHome(p)
    ensures p in WithDirs(es, BinDir(uid)) <==> p in es
    ensures p in es ==> WithDirs(es, BinDir(uid))[p] == es[p]
  {
    forall i | 0 <= i <= 3
      ensures p != BinDir(uid)[..i]
    {
      assert i >= 2 ==> BinDir(uid)[..i][1] == BinDir(uid)[1];
    }
  }

  lemma DirsOffBin(es: Entries, uid: string, rel: Path, p: Path)
    requires |p| >= 2 && p[1] != "files"
    ensures p in WithDirs(es, HomePath(uid, rel)) <==> p in es
    ensures p in es ==> WithDirs(es, HomePath(uid, rel))[p] == es[p]
  {
    var d := HomePath(uid, rel);
    forall i | 0 <= i <= |d|
      ensures p != d[..i]
    {
      assert i >= 2 ==> d[..i][1] == d[1];
    }
  }

  // With the trashbin directory made, the rename to it is ready to go.
  lemma ReadyToMove(b: Bin, uid: string, rel: Path, dst: Path)
    requires Closed(b.es) && Passable(b.es, BinDir(uid)) && BinDir(uid) < dst && Parent(dst) == BinDir(uid)
    ensures
      var es, src := WithDirs(b.es, BinDir(uid)), HomePath(uid, rel);
      && Closed(es) && InDir(es, dst) && !(src <= dst) && (src in es <==> src in b.es)
      && (src in es ==> Passable(es, Parent(src)))
  {
    var es, src := WithDirs(b.es, BinDir(uid)), HomePath(uid, rel);
    HomeAndBinApart(src, uid, dst);
    DirsOffHome(b.es, uid, src);
    WithDirsFacts(b.es, BinDir(uid));
    if src in es {
      ReachablePassable(es, src);
    }
  }

  // Nothing to remove, or an entry of the recorded kind.
  predicate CanPurge(es: Entries, e: TrashEntry) {
    Passable(es, BinDir(e.user)) && (RowPath(e) in es ==> (es[RowPath(e)].DirEntry? <==> e.isDir))
  }

  lemma LeafRemoval(es: Entries, p: Path)
    requires Closed(es)
    ensures p !in es || !es[p].DirEntry? ==> Without(es, p) == es - {p}
    ensures p !in es ==> Without(es, p) == es
  {
    if p !in es || !es[p].DirEntry? {
      forall q | q in es && p <= q
        ensures q == p
      {
        AncestorInDisk(es, q, p);
        if p != q {
          ProperPrefix(p, q);
        }
      }
    }
  }

  lemma BelowDirPassable(es: Entries, dir: Path, name: string)
    requires Closed(es) && dir in es && es[dir].DirEntry?
    ensures Parent(dir + [name]) == dir && Passable(es, dir)
  {
    forall i | 0 <= i <= |dir| && dir[..i] in es
      ensures es[dir[..i]].DirEntry?
    {
      AncestorInDisk(es, dir, dir[..i]);
      if dir[..i] != dir {
        ProperPrefix(dir[..i], dir);
      }
    }
  }

  lemma ReadyToReturn(es: Entries, uid: string, src: Path, rel: Path)
    requires Closed(es) && rel != [] && BinDir(uid) < src && Parent(src) == BinDir(uid)
    requires Passable(es, Parent(HomePath(uid, rel)))
    ensures
      var dst := HomePath(uid, rel);
      var es1 := WithDirs(es, Parent(dst));
      && InDir(es1, dst) && !(src <= dst) && (src in es1 <==> src in es) && (src in es1 ==> Passable(es1, Parent(src)))
  {
    var dst := HomePath(uid, rel);
    assert Parent(dst) == HomePath(uid, Parent(rel));
    HomeAndBinApart(dst, uid, src);
    WithDirsFacts(es, Parent(dst));
    DirsOffBin(es, uid, Parent(rel), src);
    if src in es {
      ReachablePassable(WithDirs(es, Parent(dst)), src);
    }
  }

  lemma NotOnTheWay(es: Entries, d: Path, p: Path)
    requires d < p
    ensures p in WithDirs(es, d) <==> p in es
  {
  }

  // The source survives the preparations unchanged, and the target is empty.
  lemma ReadyToCopy(es: Entries, uid: string, src: Path, dst: Path)
    requires Closed(es) && Passable(es, BinDir(uid)) && BinDir(uid) < dst && Parent(dst) == BinDir(uid) &&
             AtHome(src) && dst !in es
    ensures
      var es2 := WithDirs(es, BinDir(uid))[dst := DirEntry];
      && Closed(WithDirs(es, BinDir(uid))) && Closed(es2) && EmptyDir(es2, dst) && Disjoint(src, dst)
      && (src in es2 <==> src in es) && (src in es ==> es2[src] == es[src])
      && (OnlyFilesAndDirs(es2, src) <==> OnlyFilesAndDirs(es, src))
  {
    var es1 := WithDirs(es, BinDir(uid));
    HomeAndBinApart(src, uid, dst);
    WithDirsFacts(es, BinDir(uid));
    AddClosed(es1, dst, DirEntry);
    forall p | p in es1
      ensures !(dst <= p)
    {
      if dst <= p {
        AncestorInDisk(es1, p, dst);
      }
    }
    forall p | AtHome(p)
      ensures p in es1 <==> p in es
      ensures p in es ==> es1[p] == es[p]
    {
      DirsOffHome(es, uid, p);
    }
    forall q | src < q
      ensures AtHome(q) && q != dst
    {
      assert q[1] == src[1] && dst[1] == BinDir(uid)[1];
    }
    assert OnlyFilesAndDirs(es, src) ==> OnlyFilesAndDirs(es1[dst := DirEntry], src);
    assert OnlyFilesAndDirs(es1[dst := DirEntry], src) ==> forall q :: q in es && src < q ==> q in es1[dst := DirEntry];
  }

  lemma RemovalKeeps(es: Entries, es': Entries, es'': Entries, dst: Path)
    requires Closed(es) && dst !in es && Extends(es, es') && SameOutside(es', es'', dst)
    ensures Extends(es, es'')
  {
    forall p | p in es
      ensures p in es'' && es''[p] == es[p]
    {
      if dst <= p {
        AncestorInDisk(es, p, dst);
      }
    }
  }

  // Removing the new directory undoes everything the copy did.
  lemma RollbackRestores(es: Entries, es': Entries, dst: Path)
    requires Closed(es) && dst !in es && OutsideKept(es[dst := DirEntry], es', dst)
    ensures Without(es', dst) == es && dst in es' && es'[dst].DirEntry? && Extends(es, es')
  {
    forall p | p in es
      ensures !(dst <= p)
    {
      if dst <= p {
        AncestorInDisk(es, p, dst);
      }
    }
    forall p
      ensures p in Without(es', dst) <==> p in es
    {
      if dst != p && dst <= p {
        ProperPrefix(dst, p);
      }
    }
  }
}
