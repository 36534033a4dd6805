// The file cache as a value: its rows, the closed form of what each storage event does to
// them, and the invariant every event keeps.
module FileCacheSpec {
  import opened Wrappers
  import opened StoragePaths
  import opened LikePattern
  import opened PlainTree

  // A path the constructor accepts.
  type StoragePath = p: Path | Storable(p) witness []

  // An etag is drawn from the random source, which never repeats, or supplied by the backend.
  datatype ETag = Drawn(n: nat) | Backend(tag: nat)

  datatype Row = Row(fileid: nat, parent: Option<nat>, name: string, isDir: bool, size: int, etag: ETag, mtime: int)

  type Rows = map<Path, Row>

  // One storage's rows, the next automatic row id, and the next draw of the etag source.
  datatype Cache = Cache(rows: Rows, nextId: nat, clock: nat)

  datatype Error =
    | NotFound | AncestorMissing(path: Path) | UniqueViolation | Invalid | Panicked | Db | Storage(cause: StorageError)

  datatype StorageError = Absent | NotADirectory | Io

  datatype Event =
    | Written(path: StoragePath, size: nat, tag: nat, mtime: int)
    | DirCreated(path: StoragePath, tag: nat, mtime: int)
    | Deleted(path: StoragePath, now: int)
    | Moved(from: StoragePath, to: StoragePath, now: int)
    | Copied(from: StoragePath, to: StoragePath, now: int)

  // ---------- pieces of the events ----------

  function ResolveParent(rows: Rows, path: Path): Result<Option<nat>, Error> {
    if path == [] then Ok(None)
    else if Parent(path) in rows then Ok(Some(rows[Parent(path)].fileid))
    else if Parent(path) == [] then Ok(None)
    else Err(AncestorMissing(Parent(path)))
  }

  // The first row the upward walk from `leaf` would miss; the root row may be missing.
  function FirstMissing(rows: Rows, leaf: Path): Option<Path> {
    if leaf == [] then None
    else if Parent(leaf) in rows then FirstMissing(rows, Parent(leaf))
    else if Parent(leaf) == [] then None
    else Some(Parent(leaf))
  }

  // After the walk every proper ancestor has the delta added, the event's time, and an etag
  // of its own: the nearest ancestor gets the first draw.
  function Touched(rows: Rows, leaf: Path, delta: int, mtime: int, clock: nat): Rows {
    map p | p in rows ::
      if p < leaf
      then rows[p].(size := rows[p].size + delta, etag := Drawn(clock + |leaf| - 1 - |p|), mtime := mtime)
      else rows[p]
  }

  function Draws(rows: Rows, leaf: Path): nat {
    if leaf == [] then 0 else if [] in rows then |leaf| else |leaf| - 1
  }

  // The whole walk: touched rows and the etags it drew.
  function WalkedUp(c: Cache, leaf: Path, delta: int, mtime: int): Cache {
    Cache(Touched(c.rows, leaf, delta, mtime, c.clock), c.nextId, c.clock + Draws(c.rows, leaf))
  }

  // The row an upsert leaves at `path`.
  function NewRow(c: Cache, path: Path, pid: Option<nat>, isDir: bool, size: int, etag: ETag, mtime: int): Row {
    Row(if path in c.rows then c.rows[path].fileid else c.nextId, pid, Basename(path), isDir, size, etag, mtime)
  }

  function Inserted(c: Cache, path: Path, row: Row): Cache {
    c.(rows := c.rows[path := row], nextId := if path in c.rows then c.nextId else c.nextId + 1)
  }

  function OldSize(rows: Rows, path: Path): int {
    if path in rows then rows[path].size else 0
  }

  // `ON DELETE CASCADE` over the parent column: the row itself and, in `k` rounds, every
  // row whose parent goes.
  ghost predicate Cascades(rows: Rows, id: nat, p: Path, k: nat)
    decreases k
  {
    p in rows &&
    (rows[p].fileid == id ||
     (k > 0 && exists q :: q in rows && rows[p].parent == Some(rows[q].fileid) && Cascades(rows, id, q, k - 1)))
  }

  ghost function Cascaded(rows: Rows, id: nat): Rows {
    map p | p in rows && !(exists k: nat :: Cascades(rows, id, p, k)) :: rows[p]
  }

  // The moved top row gets its new parent and name; the rows below only change path.
  function Relocated(rows: Rows, from: Path, to: Path, pid: Option<nat>): Rows {
    map p | p in (set q | q in rows :: Subst(from, to, q)) && Subst(to, from, p) in rows ::
      if p == to then rows[Subst(to, from, p)].(parent := pid, name := Basename(to)) else rows[Subst(to, from, p)]
  }

  // Some row below `from` would get a path over the length limit.
  predicate Overlong(rows: Rows, from: Path, to: Path) {
    exists p :: p in rows && from < p && ByteLen(Render(Subst(from, to, p))) > MAX_PATH_LEN
  }

  // ---------- what a move does, whatever its pattern selects ----------

  // The rows whose path text matches `from/%`.
  function Selected(fold: bool, rows: Rows, from: Path): set<Path> {
    set q | q in rows && LikeBelow(fold, from, q)
  }

  function DescendantPrefix(from: Path): string {
    if from == [] then "" else Render(from) + "/"
  }

  // The path a selected row is given: its text without as many bytes as the prefix has, put
  // behind the target.  A row with a shorter text is skipped.
  function NewPath(from: Path, to: Path, q: Path): Result<Path, Error> {
    var n := ByteLen(DescendantPrefix(from));
    if ByteLen(Render(q)) < n then Ok(q)
    else
      match CutBytes(Render(q), n)
      case None => Err(Panicked)
      case Some(suffix) =>
        match Parse(if to == [] then suffix else Render(to) + "/" + suffix)
        case Ok(p) => Ok(p)
        case Err(_) => Err(Invalid)
  }

  function LeafMoved(rows: Rows, from: Path, to: Path, pid: Option<nat>): Rows
    requires from in rows
  {
    (rows - {from})[to := rows[from].(parent := pid, name := Basename(to))]
  }

  type NewPaths = map<Path, Result<Path, Error>>

  function Rewrites(fold: bool, rows: Rows, from: Path, to: Path): NewPaths {
    map q | q in Selected(fold, rows, from) :: NewPath(from, to, q)
  }

  // One row: a text that does not parse, or a path another row has, ends the move.
  function RewriteOne(rows: Rows, q: Path, to: Result<Path, Error>): (Rows, Outcome<Error>)
    requires q in rows
  {
    match to
    case Err(e) => (rows, Failed(e))
    case Ok(p) =>
      if p == q then (rows, Done)
      else if p in rows then (rows, Failed(UniqueViolation))
      else ((rows - {q})[p := rows[q]], Done)
  }

  // One row after the other.
  function InOrder(rows: Rows, m: NewPaths, order: seq<Path>): (Rows, Outcome<Error>) {
    if order == [] then (rows, Done)
    else
      var (before, r) := InOrder(rows, m, order[..|order| - 1]);
      var q := order[|order| - 1];
      if r.Failed? || q !in before || q !in m then (before, r) else RewriteOne(before, q, m[q])
  }

  // No selected row comes twice, and none is left out unless the rewriting has stopped.
  predicate Visits(m: NewPaths, order: seq<Path>, all: bool) {
    && (forall i, j :: 0 <= i < j < |order| ==> order[i] != order[j])
    && (forall q :: q in order ==> q in m)
    && (all ==> forall q :: q in m ==> q in order)
  }

  // The rows come in whatever order the database returns them.
  ghost predicate Rewritten(rows0: Rows, m: NewPaths, rows: Rows, r: Outcome<Error>) {
    exists order :: Visits(m, order, r.Done?) && InOrder(rows0, m, order) == (rows, r)
  }

  // No row is given a path that another row has or is given.
  ghost predicate FreeTargets(rows: Rows, m: NewPaths) {
    && (forall q :: q in m && m[q].Ok? ==> m[q].value == q || m[q].value !in rows)
    && (forall p, q :: p in m && q in m && m[p].Ok? && m[p] == m[q] ==> p == q)
  }

  predicate AllFit(m: NewPaths) {
    forall q :: q in m ==> m[q].Ok?
  }

  // The rows of `done` are at their new paths, the others where they were.
  ghost predicate PartMoved(rows0: Rows, rows: Rows, m: NewPaths, done: set<Path>) {
    && (forall p {:trigger PlaceRight(rows0, rows, m, done, p)} :: PlaceRight(rows0, rows, m, done, p))
    && (forall q {:trigger Landed(rows0, rows, m, q)} :: q in done ==> Landed(rows0, rows, m, q))
  }

  ghost predicate PlaceRight(rows0: Rows, rows: Rows, m: NewPaths, done: set<Path>, p: Path) {
    && (p in rows <==> (p in rows0 && p !in done) || ComesFrom(m, done, p))
    && (p in rows0 && p !in done && p in rows ==> rows[p] == rows0[p])
  }

  ghost predicate ComesFrom(m: NewPaths, done: set<Path>, p: Path) {
    exists q :: q in done && q in m && m[q] == Ok(p)
  }

  predicate Landed(rows0: Rows, rows: Rows, m: NewPaths, q: Path) {
    q in rows0 && q in m && m[q].Ok? && m[q].value in rows && rows[m[q].value] == rows0[q]
  }

  // The first row the walks over the chains of both ends would miss.
  function ShiftMissing(rows: Rows, from: Path, to: Path): Option<Path> {
    if (from == [] || to == [] || Parent(from) != Parent(to)) && FirstMissing(rows, from).Some?
    then FirstMissing(rows, from)
    else FirstMissing(rows, to)
  }

  // Every outcome of a move.
  ghost predicate MoveOutcome(fold: bool, c: Cache, from: Path, to: Path, now: int, c': Cache, r: Outcome<Error>) {
    match ResolveParent(c.rows, to)
    case Err(e) => c' == c && r == Failed(e)
    case Ok(pid) =>
      if from !in c.rows then c' == c && r == Failed(NotFound)
      else if to in c.rows && to != from then c' == c && r == Failed(UniqueViolation)
      else
        var rows1 := LeafMoved(c.rows, from, to, pid);
        exists rows2, r2 :: Rewritten(rows1, Rewrites(fold, rows1, from, to), rows2, r2) &&
                            if r2.Done? then Rewalked(c, rows2, from, to, now, c', r) else c' == c && r == r2
  }

  ghost predicate Rewalked(c: Cache, rows2: Rows, from: Path, to: Path, now: int, c': Cache, r: Outcome<Error>)
    requires from in c.rows
  {
    match ShiftMissing(rows2, from, to)
    case Some(a) => c' == c && r == Failed(AncestorMissing(a))
    case None => c' == Shifted(c.(rows := rows2), from, to, c.rows[from].size, now) && r == Done
  }

  // The pattern selects just the rows below `from`: then the move is the plain substitution.
  ghost predicate MovesCleanly(fold: bool, rows: Rows, from: Path, to: Path) {
    && to != [] && !(from <= to)
    && forall p :: p in rows || p == to ==> (LikeBelow(fold, from, p) <==> from < p)
  }

  // ---------- the events ----------

  function Put(c: Cache, path: Path, isDir: bool, size: nat, tag: nat, mtime: int): (Cache, Outcome<Error>) {
    match ResolveParent(c.rows, path)
    case Err(e) => (c, Failed(e))
    case Ok(pid) =>
      match FirstMissing(c.rows, path)
      case Some(a) => (c, Failed(AncestorMissing(a)))
      case None =>
        var newSize := if isDir then 0 else size;
        var row := NewRow(c, path, pid, isDir, newSize, Backend(tag), mtime);
        (WalkedUp(Inserted(c, path, row), path, newSize - OldSize(c.rows, path), mtime), Done)
  }

  ghost function Delete(c: Cache, path: Path, now: int): (Cache, Outcome<Error>) {
    if path !in c.rows then (c, Done)
    else
      var c1 := c.(rows := Cascaded(c.rows, c.rows[path].fileid));
      match FirstMissing(c1.rows, path)
      case Some(a) => (c, Failed(AncestorMissing(a)))
      case None => (WalkedUp(c1, path, -c.rows[path].size, now), Done)
  }

  function Move(c: Cache, from: Path, to: Path, now: int): (Cache, Outcome<Error>) {
    match ResolveParent(c.rows, to)
    case Err(e) => (c, Failed(e))
    case Ok(pid) =>
      if from !in c.rows then (c, Failed(NotFound))
      else if to in c.rows then (c, Failed(UniqueViolation))
      else if Overlong(c.rows, from, to) then (c, Failed(Invalid))
      else (Shifted(c.(rows := Relocated(c.rows, from, to, pid)), from, to, c.rows[from].size, now), Done)
  }

  // Different parents: subtract along the old chain, then add along the new one.
  function Shifted(c: Cache, from: Path, to: Path, size: int, now: int): Cache {
    if from != [] && to != [] && Parent(from) == Parent(to) then WalkedUp(c, to, 0, now)
    else WalkedUp(WalkedUp(c, from, -size, now), to, size, now)
  }

  function Copy(c: Cache, from: Path, to: Path, now: int): (Cache, Outcome<Error>) {
    match ResolveParent(c.rows, to)
    case Err(e) => (c, Failed(e))
    case Ok(pid) =>
      if from !in c.rows then (c, Failed(NotFound))
      else if to in c.rows then (c, Failed(UniqueViolation))
      else
        match FirstMissing(c.rows, to)
        case Some(a) => (c, Failed(AncestorMissing(a)))
        case None =>
          var src := c.rows[from];
          var c1 := c.(clock := c.clock + 1);
          var row := NewRow(c1, to, pid, src.isDir, src.size, Drawn(c.clock), now);
          (WalkedUp(Inserted(c1, to, row), to, src.size, now), Done)
  }

  ghost function Apply(c: Cache, e: Event): (Cache, Outcome<Error>) {
    match e
    case Written(path, size, tag, mtime) => Put(c, path, false, size, tag, mtime)
    case DirCreated(path, tag, mtime) => Put(c, path, true, 0, tag, mtime)
    case Deleted(path, now) => Delete(c, path, now)
    case Moved(from, to, now) => Move(c, from, to, now)
    case Copied(from, to, now) => Copy(c, from, to, now)
  }

  // ---------- the invariant ----------

  ghost predicate OneRowPerId(rows: Rows, p: Path, q: Path)
    requires p in rows && q in rows
  {
    rows[p].fileid == rows[q].fileid ==> p == q
  }

  ghost predicate IdsUnique(rows: Rows) {
    forall p, q {:trigger OneRowPerId(rows, p, q)} :: p in rows && q in rows ==> OneRowPerId(rows, p, q)
  }

  // A parent id names the row at the parent path.  Only a top-level row may have none,
  // because the root row is created lazily.
  ghost predicate ParentNamed(rows: Rows, p: Path)
    requires p in rows
  {
    match rows[p].parent
    case None => |p| <= 1
    case Some(id) => p != [] && Parent(p) in rows && rows[Parent(p)].fileid == id
  }

  ghost predicate ParentsNamed(rows: Rows) {
    forall p {:trigger ParentNamed(rows, p)} :: p in rows ==> ParentNamed(rows, p)
  }

  predicate Storable(p: Path) {
    LegalPath(p) && ByteLen(Render(p)) <= MAX_PATH_LEN
  }

  ghost predicate RowOk(c: Cache, p: Path)
    requires p in c.rows
  {
    && c.rows[p].fileid < c.nextId
    && c.rows[p].name == Basename(p)
    && (c.rows[p].etag.Drawn? ==> c.rows[p].etag.n < c.clock)
    && Storable(p)
  }

  ghost predicate RowsOk(c: Cache) {
    forall p {:trigger RowOk(c, p)} :: p in c.rows ==> RowOk(c, p)
  }

  ghost predicate Inv(c: Cache) {
    IdsUnique(c.rows) && ParentsNamed(c.rows) && RowsOk(c)
  }

  // ---------- consequences of the invariant ----------

  // Every non-root ancestor of a row has a row.
  lemma {:induction false} AncestorsPresent(rows: Rows, p: Path, a: Path)
    requires ParentsNamed(rows) && p in rows && a <= p && a != []
    ensures a in rows
    decreases |p|
  {
    if |a| < |p| {
      assert ParentNamed(rows, p);
      assert a <= Parent(p);
      AncestorsPresent(rows, Parent(p), a);
    } else {
      assert a == p;
    }
  }

  lemma NothingBelowVacant(rows: Rows, to: Path)
    requires ParentsNamed(rows) && to !in rows && to != []
    ensures Vacant(rows.Keys, to)
  {
    forall p | p in rows.Keys
      ensures !(to <= p)
    {
      if to <= p {
        AncestorsPresent(rows, p, to);
      }
    }
  }

  // If the parent resolves, the whole walk finds its rows.
  lemma {:induction false} WalkFindsAll(rows: Rows, leaf: Path)
    requires forall a :: a < leaf && a != [] ==> a in rows
    ensures FirstMissing(rows, leaf) == None
  {
    if leaf != [] {
      assert Parent(leaf) < leaf;
      forall a | a < Parent(leaf) && a != []
        ensures a in rows
      {
        assert a < leaf;
      }
      WalkFindsAll(rows, Parent(leaf));
    }
  }

  lemma ResolvedAncestor(rows: Rows, path: Path, a: Path)
    requires ParentsNamed(rows) && ResolveParent(rows, path).Ok? && a < path && a != []
    ensures a in rows
  {
    assert a <= Parent(path);
    AncestorsPresent(rows, Parent(path), a);
  }

  lemma ResolvedWalk(rows: Rows, path: Path)
    requires ParentsNamed(rows) && ResolveParent(rows, path).Ok?
    ensures FirstMissing(rows, path) == None
  {
    forall a | a < path && a != []
      ensures a in rows
    {
      ResolvedAncestor(rows, path, a);
    }
    WalkFindsAll(rows, path);
  }

  // ---------- the cascade ----------

  // Below a non-root row the cascade takes everything; below the root it misses the rows
  // under a top-level row that was created before the root row.
  ghost predicate Doomed(rows: Rows, d: Path, p: Path) {
    && d <= p
    && (d == [] && p != [] ==> p[..1] in rows && rows[p[..1]].parent.Some?)
  }

  lemma {:induction false} CascadeOnlyBelow(c: Cache, d: Path, p: Path, k: nat)
    requires Inv(c) && d in c.rows && Cascades(c.rows, c.rows[d].fileid, p, k)
    ensures Doomed(c.rows, d, p)
    decreases k
  {
    var rows := c.rows;
    assert OneRowPerId(rows, p, d);
    if rows[p].fileid != rows[d].fileid {
      var q :| q in rows && rows[p].parent == Some(rows[q].fileid) && Cascades(rows, rows[d].fileid, q, k - 1);
      assert ParentNamed(rows, p);
      assert OneRowPerId(rows, q, Parent(p));
      CascadeOnlyBelow(c, d, q, k - 1);
      if q != [] {
        assert p[..1] == q[..1];
      } else {
        assert p[..1] == p;
      }
    }
  }

  lemma {:induction false} CascadeAllBelow(c: Cache, d: Path, p: Path)
    requires Inv(c) && d in c.rows && p in c.rows && Doomed(c.rows, d, p)
    ensures exists k: nat :: Cascades(c.rows, c.rows[d].fileid, p, k)
    decreases |p|
  {
    var id := c.rows[d].fileid;
    if p == d {
      assert Cascades(c.rows, id, p, 0);
    } else {
      assert ParentNamed(c.rows, p);
      var q := Parent(p);
      assert d <= q;
      if |p| == 1 {
        assert p[..1] == p;
        assert q == d;
      } else {
        assert q[..1] == p[..1];
      }
      CascadeAllBelow(c, d, q);
      var k: nat :| Cascades(c.rows, id, q, k);
      assert Cascades(c.rows, id, p, k + 1);
    }
  }

  // The cascade along parent ids removes exactly the doomed rows.
  lemma CascadeIsSubtree(c: Cache, d: Path)
    requires Inv(c) && d in c.rows
    ensures Cascaded(c.rows, c.rows[d].fileid) == map p | p in c.rows && !Doomed(c.rows, d, p) :: c.rows[p]
  {
    forall p | p in c.rows
      ensures (exists k: nat :: Cascades(c.rows, c.rows[d].fileid, p, k)) <==> Doomed(c.rows, d, p)
    {
      if Doomed(c.rows, d, p) {
        CascadeAllBelow(c, d, p);
      }
      if k: nat :| Cascades(c.rows, c.rows[d].fileid, p, k) {
        CascadeOnlyBelow(c, d, p, k);
      }
    }
  }

  lemma CascadeBelowNonRoot(c: Cache, d: Path)
    requires Inv(c) && d in c.rows && d != []
    ensures Cascaded(c.rows, c.rows[d].fileid) == map p | p in c.rows && !(d <= p) :: c.rows[p]
  {
    CascadeIsSubtree(c, d);
  }

  // Deleting the root row empties the storage exactly when no top-level row predates it.
  lemma CascadeRootIff(c: Cache)
    requires Inv(c) && [] in c.rows
    ensures Cascaded(c.rows, c.rows[[]].fileid) == map[] <==>
            forall p :: p in c.rows && |p| == 1 ==> c.rows[p].parent.Some?
  {
    CascadeIsSubtree(c, []);
    var left := Cascaded(c.rows, c.rows[[]].fileid);
    if forall p :: p in c.rows && |p| == 1 ==> c.rows[p].parent.Some? {
      forall p | p in c.rows
        ensures Doomed(c.rows, [], p)
      {
        if p != [] {
          AncestorsPresent(c.rows, p, p[..1]);
        }
      }
    } else {
      var p :| p in c.rows && |p| == 1 && c.rows[p].parent.None?;
      assert p[..1] == p;
      assert p in left;
    }
  }
}
