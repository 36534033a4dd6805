// Cache-miss populate, as one task sees it: stat the backend, populate the parent first,
// then apply the row through the same path as an event.
module Populate {
  import opened Wrappers
  import opened StoragePaths
  import opened PlainTree
  import opened FileCacheSpec
  import opened FileCacheRefinement
  import opened FileCaches

  datatype Meta = Meta(isDir: bool, size: nat, tag: nat, mtime: int)

  type Backend = map<Path, Meta>

  // What stat answers: from the row on a hit, from the backend on a miss.
  datatype Answer = Answer(isDir: bool, size: int, etag: ETag, mtime: int)

  predicate AnswersRow(a: Answer, row: Row) {
    a.isDir == row.isDir && a.size == row.size && a.etag == row.etag && a.mtime == row.mtime
  }

  predicate AnswersBackend(a: Answer, m: Meta) {
    a.isDir == m.isDir && a.size == m.size && a.etag == Backend(m.tag) && a.mtime == m.mtime
  }

  // The path has a row made from what the backend says.
  predicate Cached(rows: Rows, path: Path, m: Meta) {
    && path in rows && rows[path].isDir == m.isDir && rows[path].size == (if m.isDir then 0 else m.size)
    && rows[path].etag == Backend(m.tag) && rows[path].mtime == m.mtime
  }

  // The backend is a tree: an entry's parent is the root or a listed directory.
  predicate IsTree(b: Backend) {
    forall p {:trigger HasParent(b, p)} :: p in b ==> HasParent(b, p)
  }

  predicate HasParent(b: Backend, p: Path)
    requires p in b
  {
    Storable(p) && (p == [] ==> b[p].isDir) && (p != [] && Parent(p) != [] ==> Parent(p) in b && b[Parent(p)].isDir)
  }

  function NodeOf(m: Meta): Node {
    if m.isDir then Dir else File(m.size)
  }

  // The plain tree after a successful stat: the path and its missing non-root ancestors are
  // added with what the backend says about them.
  function Populated(t: Tree, b: Backend, path: Path): Tree {
    if path in t || path !in b then t
    else
      var above := if path == [] || Parent(path) == [] then t else Populated(t, b, Parent(path));
      above[path := NodeOf(b[path])]
  }

  // Cached kinds are not out of date.
  predicate Agrees(t: Tree, b: Backend) {
    forall p :: p in t && p in b ==> t[p].Dir? == b[p].isDir
  }

  lemma {:induction false} PopulatedAgrees(t: Tree, b: Backend, path: Path)
    requires Agrees(t, b)
    ensures Agrees(Populated(t, b, path), b)
    ensures forall p :: p in t ==> p in Populated(t, b, path) && Populated(t, b, path)[p] == t[p]
    ensures path in t || path in b ==> path in Populated(t, b, path)
    decreases |path|
  {
    if path !in t && path in b && path != [] && Parent(path) != [] {
      PopulatedAgrees(t, b, Parent(path));
    }
  }

  // Populating adds only prefixes of the path, and never the root unless asked for it.
  lemma {:induction false} PopulatedOnlyPrefixes(t: Tree, b: Backend, path: Path, p: Path)
    requires p in Populated(t, b, path)
    ensures p in t || (p <= path && p in b && (p == [] ==> path == []))
    decreases |path|
  {
    if path !in t && path in b && p != path && path != [] && Parent(path) != [] {
      PopulatedOnlyPrefixes(t, b, Parent(path), p);
    }
  }

  // The operations numbered `from` to `to` all work.
  ghost predicate Clear(broken: set<nat>, from: nat, to: nat) {
    forall k :: from <= k < to ==> k !in broken
  }

  // The state a stat of `path` stopped part-way leaves: as after a stat of one of the
  // directories above.
  ghost predicate StoppedAbove(rows: Rows, t: Tree, b: Backend, path: Path) {
    Tracks(rows, t) || exists q: Path :: q < path && q != [] && Tracks(rows, Populated(t, b, q))
  }

  // Only existing prefixes of the path are added, the root only if it is the path.
  ghost predicate OnlyPrefixesAdded(rows: Rows, rows': Rows, b: Backend, path: Path) {
    rows.Keys <= rows'.Keys && forall p :: p in rows' && p !in rows ==> p <= path && p in b && (p == [] ==> path == [])
  }

  lemma PrefixesOfParent(rows: Rows, rows': Rows, b: Backend, path: Path)
    requires path != [] && Parent(path) != [] && OnlyPrefixesAdded(rows, rows', b, Parent(path))
    ensures OnlyPrefixesAdded(rows, rows', b, path) && (path !in rows ==> path !in rows')
  {
  }

  // What a stat of the parent leaves, whether it stopped part-way or not.
  lemma StoppedHigher(rows: Rows, t: Tree, b: Backend, path: Path)
    requires path != [] && Parent(path) != []
    ensures StoppedAbove(rows, t, b, Parent(path)) || Tracks(rows, Populated(t, b, Parent(path))) ==>
              StoppedAbove(rows, t, b, path)
  {
    assert Parent(path) < path;
    if StoppedAbove(rows, t, b, Parent(path)) && !Tracks(rows, t) {
      var q: Path :| q < Parent(path) && q != [] && Tracks(rows, Populated(t, b, q));
      assert q < path;
    }
  }

  // Only existing prefixes of the path and children of it are added.
  ghost predicate NearbyAdded(rows: Rows, rows': Rows, b: Backend, path: Path) {
    rows.Keys <= rows'.Keys &&
      forall p :: p in rows' && p !in rows ==> p in b && (p <= path || (p != [] && Parent(p) == path))
  }

  lemma ChildAdded(rows: Rows, rows1: Rows, rows2: Rows, b: Backend, path: Path, child: Path)
    requires NearbyAdded(rows, rows1, b, path) && OnlyPrefixesAdded(rows1, rows2, b, child) && child != [] &&
             Parent(child) == path
    ensures NearbyAdded(rows, rows2, b, path)
  {
    forall p | p in rows2 && p !in rows1
      ensures p in b && (p <= path || (p != [] && Parent(p) == path))
    {
      assert p == child || p <= path;
    }
  }

  class Populator {
    const cache: FileCache
    const backend: Backend
    // The database and storage operations that fail, by number.
    const broken: set<nat>
    var ops: nat
    // Calls made to `storage.stat`.
    var calls: nat

    constructor (cache: FileCache, backend: Backend, broken: set<nat>)
      ensures this.cache == cache && this.backend == backend && this.broken == broken && ops == 0 && calls == 0
    {
      this.cache := cache;
      this.backend := backend;
      this.broken := broken;
      ops := 0;
      calls := 0;
    }

    method Works() returns (ok: bool)
      modifies this`ops
      ensures ops == old(ops) + 1 && (ok <==> Clear(broken, old(ops), ops))
    {
      ok := ops !in broken;
      ops := ops + 1;
    }

    method Stat(path: StoragePath, ghost t: Tree) returns (r: Result<Answer, Error>)
      requires Inv(cache.State()) && IsTree(backend)
      modifies this, cache
      ensures Inv(cache.State()) && ops > old(ops)
      // An answer is found exactly for a cached or existing path, when no operation fails.
      ensures r.Ok? <==> (path in old(cache.rows) || path in backend) && Clear(broken, old(ops), ops)
      ensures r.Err? ==> r.error == NotFound || r.error == Db || r.error == Storage(Io)
      ensures r == Err(NotFound) <==> path !in old(cache.rows) && path !in backend && Clear(broken, old(ops), ops)
      ensures r == Err(NotFound) ==> cache.State() == old(cache.State())
      // The answer is the row's on a hit; on a miss it is the backend's, and so is the new row,
      // but for the size of a directory.
      ensures r.Ok? && path in old(cache.rows) ==> AnswersRow(r.value, old(cache.rows)[path])
      ensures r.Ok? && path !in old(cache.rows) ==> AnswersBackend(r.value, backend[path])
      ensures r.Ok? && path !in old(cache.rows) ==> Cached(cache.rows, path, backend[path])
      // Afterwards the path is cached, and so are its non-root ancestors; on an error it is not.
      ensures r.Ok? ==> forall a :: a <= path && (a == [] ==> path == []) ==> a in cache.rows
      ensures OnlyPrefixesAdded(old(cache.rows), cache.rows, backend, path)
      ensures r.Err? && path !in old(cache.rows) ==> path !in cache.rows
      // A hit touches nothing; a miss asks the backend at most once per level.
      ensures path in old(cache.rows) ==>
                calls == old(calls) && ops == old(ops) + 1 && cache.State() == old(cache.State())
      ensures old(calls) <= calls <= old(calls) + |path| + 1
      // The table still refines the plain tree, now with the populated entries.
      ensures Tracks(old(cache.rows), t) && Agrees(t, backend) && RootFits(t, path) ==>
                if r.Ok? then Tracks(cache.rows, Populated(t, backend, path))
                else StoppedAbove(cache.rows, t, backend, path)
      decreases |path|
    {
      var found := Works();
      if !found {
        return Err(Db);
      }
      if path in cache.rows {
        var row := cache.rows[path];
        CachedAncestors(cache.rows, path);
        return Ok(Answer(row.isDir, row.size, row.etag, row.mtime));
      }
      // The second look, under the lock.
      found := Works();
      if !found {
        return Err(Db);
      }
      calls := calls + 1;
      var answered := Works();
      if !answered {
        return Err(Storage(Io));
      }
      if path !in backend {
        return Err(NotFound);
      }
      r := Fill(path, backend[path], t);
      if r.Ok? {
        CachedAncestors(cache.rows, path);
      }
    }

    // The parent first, then the row of the path itself, in a transaction of its own.
    method Fill(path: StoragePath, meta: Meta, ghost t: Tree) returns (r: Result<Answer, Error>)
      requires Inv(cache.State()) && IsTree(backend) && path !in cache.rows && path in backend && meta == backend[path]
      modifies this, cache
      ensures Inv(cache.State()) && ops > old(ops)
      ensures r.Ok? <==> Clear(broken, old(ops), ops)
      ensures r.Err? ==> r.error == Db || r.error == Storage(Io)
      ensures r.Ok? ==> path in cache.rows
      ensures r.Ok? ==> AnswersBackend(r.value, meta) && Cached(cache.rows, path, meta)
      ensures OnlyPrefixesAdded(old(cache.rows), cache.rows, backend, path)
      ensures r.Err? ==> path !in cache.rows
      ensures old(calls) <= calls <= old(calls) + |path|
      ensures Tracks(old(cache.rows), t) && Agrees(t, backend) && RootFits(t, path) ==>
                if r.Ok? then Tracks(cache.rows, Populated(t, backend, path))
                else StoppedAbove(cache.rows, t, backend, path)
      decreases |path|, 1
    {
      var above := FillParent(path, t);
      if above.Failed? {
        return Err(above.error);
      }
      ghost var c1 := cache.State();
      var applied := Works();
      if !applied {
        return Err(Db);
      }
      var outcome := cache.ApplyPut(path, meta.isDir, meta.size, meta.tag, meta.mtime);
      PopulateTaken(c1, path, meta);
      if outcome.Failed? {
        assert false;
      }
      if Tracks(old(cache.rows), t) && Agrees(t, backend) && RootFits(t, path) {
        MissTracks(backend, c1, t, path);
      }
      return Ok(Answer(meta.isDir, meta.size, Backend(meta.tag), meta.mtime));
    }

    // Below a named parent, that parent is populated; the root never is.
    method FillParent(path: StoragePath, ghost t: Tree) returns (r: Outcome<Error>)
      requires Inv(cache.State()) && IsTree(backend) && path !in cache.rows && path in backend
      modifies this, cache
      ensures Inv(cache.State()) && ops >= old(ops)
      ensures r.Done? <==> Clear(broken, old(ops), ops)
      ensures r.Failed? ==> r.error == Db || r.error == Storage(Io)
      ensures r.Done? && path != [] && Parent(path) != [] ==> Parent(path) in cache.rows
      ensures OnlyPrefixesAdded(old(cache.rows), cache.rows, backend, path) && path !in cache.rows
      ensures old(calls) <= calls <= old(calls) + |path|
      ensures Tracks(old(cache.rows), t) && Agrees(t, backend) && RootFits(t, path) ==>
                (r.Done? ==> Tracks(cache.rows, Above(t, backend, path))) && StoppedAbove(cache.rows, t, backend, path)
      decreases |path|, 0
    {
      assert HasParent(backend, path);
      if path == [] || Parent(path) == [] {
        return Done;
      }
      ParentStorable(path);
      var above := Stat(Parent(path), t);
      StoppedHigher(cache.rows, t, backend, path);
      PrefixesOfParent(old(cache.rows), cache.rows, backend, path);
      return if above.Err? then Failed(above.error) else Done;
    }

    // Two stats in a row: the second is answered from the cache, by one look.  It gives the
    // same answer exactly for what was cached before, for a file, and for a directory whose
    // size the backend gives as 0.
    method StatTwice(path: StoragePath)
      returns (first: Result<Answer, Error>, second: Result<Answer, Error>, later: nat)
      requires Inv(cache.State()) && IsTree(backend)
      modifies this, cache
      ensures first.Ok? ==> later == 0 && (second.Ok? <==> ops - 1 !in broken)
      ensures first.Ok? ==> path in old(cache.rows) || path in backend
      ensures first.Ok? && second.Ok? ==>
                (second == first <==>
                 path in old(cache.rows) || !backend[path].isDir || backend[path].size == 0)
      ensures first.Ok? && second.Ok? && second != first ==> second.value == first.value.(size := 0)
    {
      first := Stat(path, map[]);
      var before := calls;
      second := Stat(path, map[]);
      later := calls - before;
    }

    // List a directory: populate it, then each of its children one level deep.
    method List(path: StoragePath) returns (r: Result<set<string>, Error>)
      requires Inv(cache.State()) && IsTree(backend)
      modifies this, cache
      ensures Inv(cache.State()) && ops > old(ops)
      ensures r.Ok? ==>
                path in cache.rows && r.value == set p | p in backend && p != [] && Parent(p) == path :: Basename(p)
      ensures r.Ok? ==> forall p :: p in backend && p != [] && Parent(p) == path ==> p in cache.rows
      ensures r.Ok? <==> path in backend && backend[path].isDir && Clear(broken, old(ops), ops)
      ensures r.Err? && Clear(broken, old(ops), ops) ==>
                r.error == if path in backend then Storage(NotADirectory)
                           else if path in old(cache.rows) then Storage(Absent) else NotFound
      // Whatever happens, only prefixes of the path and its children are added.
      ensures NearbyAdded(old(cache.rows), cache.rows, backend, path)
    {
      var self := Stat(path, map[]);
      if self.Err? {
        return Err(self.error);
      }
      var answered := Works();
      if !answered {
        return Err(Storage(Io));
      }
      if path !in backend {
        return Err(Storage(Absent));
      }
      if !backend[path].isDir {
        return Err(Storage(NotADirectory));
      }
      var entries := set p | p in backend && p != [] && Parent(p) == path;
      var todo := entries;
      while todo != {}
        invariant todo <= entries && Inv(cache.State()) && path in cache.rows
        invariant forall p :: p in entries - todo ==> p in cache.rows
        invariant ops > old(ops) && Clear(broken, old(ops), ops)
        invariant NearbyAdded(old(cache.rows), cache.rows, backend, path)
      {
        var child :| child in todo;
        assert HasParent(backend, child);
        ghost var rows1 := cache.rows;
        var answer := Stat(child, map[]);
        ChildAdded(old(cache.rows), rows1, cache.rows, backend, path, child);
        if answer.Err? {
          return Err(answer.error);
        }
        todo := todo - {child};
      }
      return Ok(set p | p in entries :: Basename(p));
    }
  }

  // A stat repeated after one that stopped part-way ends in the tree it would have reached.
  lemma {:induction false} RetryCompletes(t: Tree, b: Backend, q: Path, path: Path)
    requires IsTree(b) && q <= path && path in b && q != []
    requires forall p :: p in t && p != [] && Parent(p) != [] ==> Parent(p) in t
    ensures Populated(Populated(t, b, q), b, path) == Populated(t, b, path)
    decreases |path|
  {
    assert HasParent(b, path);
    if path in t {
      NamedAbove(t, path, q);
    } else if q == path {
      assert path in Populated(t, b, q);
    } else {
      assert q <= Parent(path) && Parent(path) != [];
      RetryCompletes(t, b, q, Parent(path));
      if path in Populated(t, b, q) {
        PopulatedOnlyPrefixes(t, b, q, path);
      }
    }
  }

  lemma {:induction false} NamedAbove(t: Tree, p: Path, q: Path)
    requires p in t && q <= p && q != []
    requires forall p :: p in t && p != [] && Parent(p) != [] ==> Parent(p) in t
    ensures q in t
    decreases |p|
  {
    if q != p {
      assert q <= Parent(p);
      NamedAbove(t, Parent(p), q);
    }
  }

  ghost predicate Tracks(rows: Rows, t: Tree) {
    Refines(rows, t) && Shaped(t)
  }

  function Above(t: Tree, b: Backend, path: Path): Tree {
    if path == [] || Parent(path) == [] then t else Populated(t, b, Parent(path))
  }

  lemma MissTracks(b: Backend, c: Cache, t: Tree, path: StoragePath)
    requires IsTree(b) && Inv(c) && path in b && path !in t && Agrees(t, b) && RootFits(t, path)
    requires Tracks(c.rows, Above(t, b, path))
    requires path != [] && Parent(path) != [] ==> Parent(path) in c.rows
    ensures Tracks(Put(c, path, b[path].isDir, b[path].size, b[path].tag, b[path].mtime).0.rows, Populated(t, b, path))
  {
    assert HasParent(b, path);
    PopulateParent(t, b, path);
    PopulateRefines(c, Above(t, b, path), path, b[path]);
  }

  // The root is a directory, and is only materialised while the storage holds no bytes.
  ghost predicate RootFits(t: Tree, path: Path) {
    && ([] in t ==> t[[]].Dir?)
    && (path == [] && path !in t ==> Total(t, []) == 0)
  }

  // With the parent row in place the apply succeeds, so AncestorMissing never surfaces.
  lemma PopulateTaken(c: Cache, path: StoragePath, meta: Meta)
    requires Inv(c) && (path != [] && Parent(path) != [] ==> Parent(path) in c.rows)
    ensures Put(c, path, meta.isDir, meta.size, meta.tag, meta.mtime).1 == Done
    ensures Inv(Put(c, path, meta.isDir, meta.size, meta.tag, meta.mtime).0)
    ensures Put(c, path, meta.isDir, meta.size, meta.tag, meta.mtime).0.rows.Keys == c.rows.Keys + {path}
  {
    PutInv(c, path, meta.isDir, meta.size, meta.tag, meta.mtime);
    var row := PutTaken(c, path, meta.isDir, meta.size, meta.tag, meta.mtime);
  }

  lemma PopulateParent(t: Tree, b: Backend, path: Path)
    requires IsTree(b) && Agrees(t, b) && path in b && path !in t && RootFits(t, path)
    ensures
      var t1 := Above(t, b, path);
      && path !in t1
      && ParentIsDir(t1, path)
      && RootFits(t1, path)
      && (path == [] ==> t1 == t)
  {
    assert HasParent(b, path);
    if path != [] && Parent(path) != [] {
      PopulatedAgrees(t, b, Parent(path));
      if path in Populated(t, b, Parent(path)) {
        PopulatedOnlyPrefixes(t, b, Parent(path), path);
      }
      if [] in Populated(t, b, Parent(path)) {
        PopulatedOnlyPrefixes(t, b, Parent(path), []);
      }
    }
  }

  lemma PopulateRefines(c: Cache, t: Tree, path: StoragePath, meta: Meta)
    requires Inv(c) && Refines(c.rows, t) && Shaped(t) && path !in t && ParentIsDir(t, path) && RootFits(t, path)
    requires path == [] ==> meta.isDir
    requires path != [] && Parent(path) != [] ==> Parent(path) in c.rows
    ensures Refines(Put(c, path, meta.isDir, meta.size, meta.tag, meta.mtime).0.rows, t[path := NodeOf(meta)])
    ensures Shaped(t[path := NodeOf(meta)])
  {
    var e := if meta.isDir then DirCreated(path, meta.tag, meta.mtime)
             else Written(path, meta.size, meta.tag, meta.mtime);
    StepRefines(false, c, t, e);
    assert TreeStep(t, e) == Some(t[path := NodeOf(meta)]);
    assert meta.isDir ==>
             Put(c, path, true, meta.size, meta.tag, meta.mtime) == Put(c, path, true, 0, meta.tag, meta.mtime);
  }

  lemma CachedAncestors(rows: Rows, path: Path)
    requires ParentsNamed(rows) && path in rows
    ensures forall a :: a <= path && (a == [] ==> path == []) ==> a in rows
  {
    forall a | a <= path && (a == [] ==> path == [])
      ensures a in rows
    {
      if a != [] {
        AncestorsPresent(rows, path, a);
      }
    }
  }

  lemma ParentStorable(path: Path)
    requires Storable(path) && path != [] && Parent(path) != []
    ensures Storable(Parent(path))
  {
    RenderAppend(Parent(path), [path[|path| - 1]]);
    assert Parent(path) + [path[|path| - 1]] == path;
    ByteLenConcat(Render(Parent(path)), "/" + path[|path| - 1]);
    assert Render(Parent(path)) + ("/" + path[|path| - 1]) == Render(path);
  }
}
