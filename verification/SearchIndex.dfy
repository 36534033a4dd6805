// The search index: one row per viewer and file, written in batches.  On sqlite the index is
// a full-text table without a unique key, hence a multiset of rows.
module SearchIndex {

  datatype Row = Row(viewer: string, fileid: int, storage: string, basename: string, path: string, mime: string,
                     mtime: int, size: int)

  type Index = multiset<Row>

  const BATCH_CHUNK_SIZE: nat := 500

  datatype Pair = Pair(viewer: string, fileid: int)

  function PairOf(r: Row): Pair {
    Pair(r.viewer, r.fileid)
  }

  // ---------- statements ----------

  // DELETE ... WHERE (viewer, fileid) IN (...)
  ghost function Without(m: Index, keys: set<Pair>): Index
    decreases |m|
  {
    if m == multiset{} then multiset{}
    else
      var r :| r in m;
      Without(m - multiset{r}, keys) + (if PairOf(r) in keys then multiset{} else multiset{r})
  }

  // The number of times a row is left after a deletion decides everything about it.
  lemma {:induction false} WithoutIs(m: Index, keys: set<Pair>, r: Row)
    ensures Without(m, keys)[r] == if PairOf(r) in keys then 0 else m[r]
    decreases |m|
  {
    if m != multiset{} {
      var q :| q in m && Without(m, keys) ==
        Without(m - multiset{q}, keys) + (if PairOf(q) in keys then multiset{} else multiset{q});
      var rest := m - multiset{q};
      assert m[r] == rest[r] + (if r == q then 1 else 0);
      WithoutIs(rest, keys, r);
      assert Without(m, keys)[r] == Without(rest, keys)[r] + (if r == q && PairOf(q) !in keys then 1 else 0);
    }
  }

  lemma SameIndex(a: Index, b: Index)
    requires forall r :: a[r] == b[r]
    ensures a == b
  {
  }

  function Keys(rows: seq<Row>): set<Pair> {
    set r | r in rows :: PairOf(r)
  }

  // Upserting one row: delete, then insert, in one transaction.
  ghost function Upsert(m: Index, r: Row): Index {
    Without(m, {PairOf(r)}) + multiset{r}
  }

  ghost function UpsertEach(m: Index, rows: seq<Row>): Index
    decreases |rows|
  {
    if rows == [] then m else UpsertEach(Upsert(m, rows[0]), rows[1..])
  }

  // Upserting a chunk: one deletion of all its keys, one insertion of all its rows.
  ghost function UpsertChunk(m: Index, chunk: seq<Row>): Index {
    Without(m, Keys(chunk)) + multiset(chunk)
  }

  ghost function UpsertChunks(m: Index, rows: seq<Row>, size: nat): Index
    requires size > 0
    decreases |rows|
  {
    if rows == [] then m
    else if |rows| <= size then UpsertChunk(m, rows)
    else UpsertChunks(UpsertChunk(m, rows[..size]), rows[size..], size)
  }

  predicate DistinctKeys(rows: seq<Row>) {
    forall i, j :: 0 <= i < j < |rows| ==> PairOf(rows[i]) != PairOf(rows[j])
  }

  // No key twice within any one chunk.
  predicate DistinctWithinChunks(rows: seq<Row>, size: nat)
    requires size > 0
    decreases |rows|
  {
    if |rows| <= size then DistinctKeys(rows)
    else DistinctKeys(rows[..size]) && DistinctWithinChunks(rows[size..], size)
  }

  // ---------- batching changes nothing ----------

  function LastOf(rows: seq<Row>, p: Pair): Row
    requires p in Keys(rows)
    decreases |rows|
  {
    FirstOrRest(rows);
    if p in Keys(rows[1..]) then LastOf(rows[1..], p) else rows[0]
  }

  lemma FirstOrRest(rows: seq<Row>)
    ensures rows != [] ==> Keys(rows) == {PairOf(rows[0])} + Keys(rows[1..])
    ensures rows == [] ==> Keys(rows) == {}
  {
    if rows != [] {
      assert forall q :: q in rows <==> q == rows[0] || q in rows[1..];
    }
  }

  // After the rows have been upserted one by one, each key has its last row and no other.
  lemma {:induction false} EachIs(m: Index, rows: seq<Row>, r: Row)
    ensures UpsertEach(m, rows)[r] ==
            if PairOf(r) !in Keys(rows) then m[r] else if r == LastOf(rows, PairOf(r)) then 1 else 0
    decreases |rows|
  {
    FirstOrRest(rows);
    if rows != [] {
      var m1 := Upsert(m, rows[0]);
      EachIs(m1, rows[1..], r);
      WithoutIs(m, {PairOf(rows[0])}, r);
    }
  }

  lemma {:induction false} OnlyLast(rows: seq<Row>, i: nat)
    requires DistinctKeys(rows) && i < |rows|
    ensures LastOf(rows, PairOf(rows[i])) == rows[i]
    decreases |rows|
  {
    FirstOrRest(rows);
    FirstKeyOnce(rows);
    if i > 0 {
      OnlyLast(rows[1..], i - 1);
      assert rows[1..][i - 1] == rows[i];
    }
  }

  lemma Twice(rows: seq<Row>, i: nat, j: nat)
    requires i < j < |rows| && rows[i] == rows[j]
    ensures multiset(rows)[rows[i]] >= 2
  {
    assert rows == rows[..i] + [rows[i]] + rows[i + 1..j] + [rows[j]] + rows[j + 1..];
  }

  lemma FirstKeyOnce(rows: seq<Row>)
    requires rows != [] && DistinctKeys(rows)
    ensures DistinctKeys(rows[1..]) && PairOf(rows[0]) !in Keys(rows[1..])
  {
    assert forall i :: 0 < i < |rows| ==> rows[i] == rows[1..][i - 1];
    forall r | r in rows[1..]
      ensures PairOf(r) != PairOf(rows[0])
    {
      var i :| 0 <= i < |rows[1..]| && rows[1..][i] == r;
      assert rows[i + 1] == r;
    }
  }

  lemma {:induction false} OnceEach(rows: seq<Row>, r: Row)
    requires DistinctKeys(rows)
    ensures multiset(rows)[r] == if r in rows then 1 else 0
    decreases |rows|
  {
    if rows != [] {
      FirstKeyOnce(rows);
      OnceEach(rows[1..], r);
      assert rows == [rows[0]] + rows[1..];
    }
  }

  // A chunk gives the same index as its rows one by one exactly if no key occurs twice.
  lemma ChunkIsEachIff(m: Index, chunk: seq<Row>)
    ensures UpsertChunk(m, chunk) == UpsertEach(m, chunk) <==> DistinctKeys(chunk)
  {
    if DistinctKeys(chunk) {
      forall r
        ensures UpsertChunk(m, chunk)[r] == UpsertEach(m, chunk)[r]
      {
        WithoutIs(m, Keys(chunk), r);
        EachIs(m, chunk, r);
        OnceEach(chunk, r);
        if r in chunk {
          var i :| 0 <= i < |chunk| && chunk[i] == r;
          OnlyLast(chunk, i);
        } else if PairOf(r) in Keys(chunk) {
          LastIsOne(chunk, PairOf(r));
        }
      }
      SameIndex(UpsertChunk(m, chunk), UpsertEach(m, chunk));
    } else {
      var i, j :| 0 <= i < j < |chunk| && PairOf(chunk[i]) == PairOf(chunk[j]);
      var a, b := chunk[i], chunk[j];
      EachIs(m, chunk, a);
      EachIs(m, chunk, b);
      WithoutIs(m, Keys(chunk), a);
      WithoutIs(m, Keys(chunk), b);
      if a == b {
        Twice(chunk, i, j);
      }
      assert a in multiset(chunk) && b in multiset(chunk);
    }
  }

  lemma {:induction false} LastIsOne(rows: seq<Row>, p: Pair)
    requires p in Keys(rows)
    ensures LastOf(rows, p) in rows && PairOf(LastOf(rows, p)) == p
    decreases |rows|
  {
    FirstOrRest(rows);
    if p in Keys(rows[1..]) {
      LastIsOne(rows[1..], p);
    }
  }

  lemma {:induction false} EachConcat(m: Index, a: seq<Row>, b: seq<Row>)
    ensures UpsertEach(m, a + b) == UpsertEach(UpsertEach(m, a), b)
    decreases |a|
  {
    if a == [] {
      assert a + b == b;
    } else {
      assert (a + b)[0] == a[0] && (a + b)[1..] == a[1..] + b;
      EachConcat(Upsert(m, a[0]), a[1..], b);
    }
  }

  // Whatever the chunk size, batching is upserting row by row, as long as no chunk repeats a key.
  lemma {:induction false} ManyIsEach(m: Index, rows: seq<Row>, size: nat)
    requires size > 0 && DistinctWithinChunks(rows, size)
    ensures UpsertChunks(m, rows, size) == UpsertEach(m, rows)
    decreases |rows|
  {
    if |rows| <= size {
      ChunkIsEachIff(m, rows);
    } else {
      var a, b := rows[..size], rows[size..];
      ChunkIsEachIff(m, a);
      ManyIsEach(UpsertChunk(m, a), b, size);
      EachConcat(m, a, b);
      Rejoined(rows, size);
    }
  }

  lemma Rejoined(rows: seq<Row>, n: nat)
    requires n <= |rows|
    ensures rows[..n] + rows[n..] == rows
  {
  }

  // ---------- sharing and unsharing ----------

  datatype FileRow = FileRow(fileid: int, storage: string, basename: string, path: string, mime: string, mtime: int,
                             size: int)

  function ForViewer(f: FileRow, viewer: string): Row {
    Row(viewer, f.fileid, f.storage, f.basename, f.path, f.mime, f.mtime, f.size)
  }

  // File by file, recipient by recipient.
  method Batch(files: seq<FileRow>, recipients: seq<string>) returns (batch: seq<Row>)
    ensures batch == Rows(files, recipients)
  {
    batch := [];
    for i := 0 to |files|
      invariant batch == Rows(files[..i], recipients)
    {
      ghost var before := batch;
      for k := 0 to |recipients|
        invariant batch == before + ForAll(files[i], recipients[..k])
      {
        assert recipients[..k + 1] == recipients[..k] + [recipients[k]];
        ForAllSnoc(files[i], recipients[..k], recipients[k]);
        batch := batch + [ForViewer(files[i], recipients[k])];
      }
      assert recipients[..|recipients|] == recipients && files[..i + 1] == files[..i] + [files[i]];
      RowsSnoc(files[..i], files[i], recipients);
    }
    assert files[..|files|] == files;
  }

  function ForAll(f: FileRow, recipients: seq<string>): seq<Row> {
    if recipients == [] then [] else [ForViewer(f, recipients[0])] + ForAll(f, recipients[1..])
  }

  function Rows(files: seq<FileRow>, recipients: seq<string>): seq<Row> {
    if files == [] then [] else ForAll(files[0], recipients) + Rows(files[1..], recipients)
  }

  lemma {:induction false} ForAllSnoc(f: FileRow, recipients: seq<string>, u: string)
    ensures ForAll(f, recipients + [u]) == ForAll(f, recipients) + [ForViewer(f, u)]
    decreases |recipients|
  {
    if recipients != [] {
      assert (recipients + [u])[0] == recipients[0] && (recipients + [u])[1..] == recipients[1..] + [u];
      ForAllSnoc(f, recipients[1..], u);
    } else {
      assert recipients + [u] == [u] && [u][1..] == [];
    }
  }

  lemma {:induction false} RowsSnoc(files: seq<FileRow>, f: FileRow, recipients: seq<string>)
    ensures Rows(files + [f], recipients) == Rows(files, recipients) + ForAll(f, recipients)
    decreases |files|
  {
    if files != [] {
      assert (files + [f])[0] == files[0] && (files + [f])[1..] == files[1..] + [f];
      RowsSnoc(files[1..], f, recipients);
    } else {
      assert files + [f] == [f] && [f][1..] == [];
    }
  }

  predicate DistinctFiles(files: seq<FileRow>) {
    forall i, j :: 0 <= i < j < |files| ==> files[i].fileid != files[j].fileid
  }

  predicate DistinctNames(us: seq<string>) {
    forall i, j :: 0 <= i < j < |us| ==> us[i] != us[j]
  }

  lemma {:induction false} ForAllAt(f: FileRow, us: seq<string>, i: nat)
    requires i < |us|
    ensures |ForAll(f, us)| == |us| && ForAll(f, us)[i] == ForViewer(f, us[i])
    decreases |us|
  {
    if |us| > 1 {
      ForAllAt(f, us[1..], if i == 0 then 0 else i - 1);
    }
  }

  lemma {:induction false} RowsFrom(files: seq<FileRow>, us: seq<string>, i: nat) returns (k: nat)
    requires i < |Rows(files, us)|
    ensures k < |files| && Rows(files, us)[i].fileid == files[k].fileid
    decreases |files|
  {
    var head := ForAll(files[0], us);
    if i < |head| {
      k := 0;
      ForAllLength(files[0], us);
      ForAllAt(files[0], us, i);
    } else {
      var j := RowsFrom(files[1..], us, i - |head|);
      k := j + 1;
    }
  }

  lemma {:induction false} ForAllLength(f: FileRow, us: seq<string>)
    ensures |ForAll(f, us)| == |us|
    decreases |us|
  {
    if us != [] {
      ForAllLength(f, us[1..]);
    }
  }

  // Distinct files for distinct recipients: no key occurs twice, in any chunk.
  lemma {:induction false} BatchDistinct(files: seq<FileRow>, us: seq<string>)
    requires DistinctFiles(files) && DistinctNames(us)
    ensures DistinctKeys(Rows(files, us))
    decreases |files|
  {
    if files != [] {
      var head, tail := ForAll(files[0], us), Rows(files[1..], us);
      BatchDistinct(files[1..], us);
      ForAllLength(files[0], us);
      forall i, j | 0 <= i < j < |head + tail|
        ensures PairOf((head + tail)[i]) != PairOf((head + tail)[j])
      {
        if j < |head| {
          ForAllAt(files[0], us, i);
          ForAllAt(files[0], us, j);
        } else if i < |head| {
          ForAllAt(files[0], us, i);
          var k := RowsFrom(files[1..], us, j - |head|);
          assert files[1..][k] == files[k + 1];
        }
      }
    }
  }

  lemma {:induction false} DistinctInChunks(rows: seq<Row>, size: nat)
    requires size > 0 && DistinctKeys(rows)
    ensures DistinctWithinChunks(rows, size)
    decreases |rows|
  {
    if |rows| > size {
      DistinctInChunks(rows[size..], size);
    }
  }

  // The row says about the file what the file cache says.
  predicate Shows(r: Row, f: FileRow) {
    && r.fileid == f.fileid && r.storage == f.storage && r.basename == f.basename && r.path == f.path
    && r.mime == f.mime && r.mtime == f.mtime && r.size == f.size
  }

  // The batch has a row for each file and recipient, that shows the file, and no others.
  lemma {:induction false} RowsShow(files: seq<FileRow>, us: seq<string>, r: Row)
    ensures r in Rows(files, us) <==> r.viewer in us && exists f :: f in files && Shows(r, f)
    decreases |files|
  {
    if files != [] {
      RowsShow(files[1..], us, r);
      ForAllShow(files[0], us, r);
      assert forall f :: f in files <==> f == files[0] || f in files[1..];
    }
  }

  lemma {:induction false} ForAllShow(f: FileRow, us: seq<string>, r: Row)
    ensures r in ForAll(f, us) <==> r.viewer in us && Shows(r, f)
    decreases |us|
  {
    if us != [] {
      ForAllShow(f, us[1..], r);
      assert r.viewer in us <==> r.viewer == us[0] || r.viewer in us[1..];
    }
  }

  // After a share each recipient finds each file once, as it is in the file cache; every other
  // row is as it was.
  lemma SharedIndex(m: Index, files: seq<FileRow>, us: seq<string>, size: nat, r: Row)
    requires size > 0 && DistinctFiles(files) && DistinctNames(us)
    ensures UpsertChunks(m, Rows(files, us), size)[r] ==
            if r.viewer in us && (exists f :: f in files && Shows(r, f)) then 1
            else if r.viewer in us && (exists f :: f in files && f.fileid == r.fileid) then 0
            else m[r]
  {
    var rows := Rows(files, us);
    BatchDistinct(files, us);
    DistinctInChunks(rows, size);
    ManyIsEach(m, rows, size);
    EachIs(m, rows, r);
    RowsShow(files, us, r);
    KeysOfRows(files, us, PairOf(r));
    if r in rows {
      var i :| 0 <= i < |rows| && rows[i] == r;
      OnlyLast(rows, i);
      assert PairOf(r) in Keys(rows);
    } else if PairOf(r) in Keys(rows) {
      LastIsOne(rows, PairOf(r));
    }
  }

  // The keys of a batch are the pairs of recipients and file ids.
  lemma KeysOfRows(files: seq<FileRow>, us: seq<string>, p: Pair)
    ensures p in Keys(Rows(files, us)) <==> p.viewer in us && exists f :: f in files && f.fileid == p.fileid
  {
    var rows := Rows(files, us);
    if p in Keys(rows) {
      var r :| r in rows && PairOf(r) == p;
      RowsShow(files, us, r);
    }
    if f :| p.viewer in us && f in files && f.fileid == p.fileid {
      var r := Row(p.viewer, f.fileid, f.storage, f.basename, f.path, f.mime, f.mtime, f.size);
      assert Shows(r, f);
      RowsShow(files, us, r);
    }
  }

  // Sharing a subtree and unsharing it again restores the index, if the recipients had no
  // row for any of its files.
  lemma UnshareRestores(m: Index, files: seq<FileRow>, us: seq<string>, size: nat)
    requires size > 0 && DistinctFiles(files) && DistinctNames(us)
    requires forall r :: r in m ==> PairOf(r) !in Keys(Rows(files, us))
    ensures Without(UpsertChunks(m, Rows(files, us), size), Keys(Rows(files, us))) == m
  {
    var rows := Rows(files, us);
    BatchDistinct(files, us);
    DistinctInChunks(rows, size);
    ManyIsEach(m, rows, size);
    forall r
      ensures Without(UpsertEach(m, rows), Keys(rows))[r] == m[r]
    {
      WithoutIs(UpsertEach(m, rows), Keys(rows), r);
      EachIs(m, rows, r);
    }
    SameIndex(Without(UpsertEach(m, rows), Keys(rows)), m);
  }

  // Deleting pair by pair is deleting all at once.
  ghost function WithoutEach(m: Index, pairs: seq<Pair>): Index
    decreases |pairs|
  {
    if pairs == [] then m else WithoutEach(Without(m, {pairs[0]}), pairs[1..])
  }

  lemma {:induction false} WithoutEachIs(m: Index, pairs: seq<Pair>, r: Row)
    ensures WithoutEach(m, pairs)[r] == if PairOf(r) in pairs then 0 else m[r]
    decreases |pairs|
  {
    if pairs != [] {
      WithoutEachIs(Without(m, {pairs[0]}), pairs[1..], r);
      WithoutIs(m, {pairs[0]}, r);
      assert PairOf(r) in pairs <==> PairOf(r) == pairs[0] || PairOf(r) in pairs[1..];
    }
  }

  function PairsOf(rows: seq<Row>): seq<Pair> {
    seq(|rows|, i requires 0 <= i < |rows| => PairOf(rows[i]))
  }

  lemma PairsConcat(a: seq<Row>, b: seq<Row>)
    ensures PairsOf(a + b) == PairsOf(a) + PairsOf(b)
  {
  }

  lemma OnePairMore(a: seq<Row>, b: seq<Row>, r: Row)
    ensures PairsOf(a + (b + [r])) == PairsOf(a + b) + [PairOf(r)]
  {
    assert a + (b + [r]) == (a + b) + [r];
    PairsConcat(a + b, [r]);
  }

  // The pairs an unshare deletes, in the order of its loops.
  method Pairs(files: seq<FileRow>, recipients: seq<string>) returns (pairs: seq<Pair>)
    ensures pairs == PairsOf(Rows(files, recipients))
  {
    pairs := [];
    for i := 0 to |files|
      invariant pairs == PairsOf(Rows(files[..i], recipients))
    {
      ghost var before := Rows(files[..i], recipients);
      for k := 0 to |recipients|
        invariant pairs == PairsOf(before + ForAll(files[i], recipients[..k]))
      {
        assert recipients[..k + 1] == recipients[..k] + [recipients[k]];
        ForAllSnoc(files[i], recipients[..k], recipients[k]);
        OnePairMore(before, ForAll(files[i], recipients[..k]), ForViewer(files[i], recipients[k]));
        pairs := pairs + [Pair(recipients[k], files[i].fileid)];
      }
      assert recipients[..|recipients|] == recipients && files[..i + 1] == files[..i] + [files[i]];
      RowsSnoc(files[..i], files[i], recipients);
    }
    assert files[..|files|] == files;
  }

  // Deleting the pairs one by one is deleting the keys of the rows.
  lemma PairsAreKeys(m: Index, rows: seq<Row>)
    ensures WithoutEach(m, PairsOf(rows)) == Without(m, Keys(rows))
  {
    forall r
      ensures WithoutEach(m, PairsOf(rows))[r] == Without(m, Keys(rows))[r]
    {
      WithoutEachIs(m, PairsOf(rows), r);
      WithoutIs(m, Keys(rows), r);
      if PairOf(r) in Keys(rows) {
        var q :| q in rows && PairOf(q) == PairOf(r);
        var i :| 0 <= i < |rows| && rows[i] == q;
        assert PairsOf(rows)[i] == PairOf(r);
      }
    }
    SameIndex(WithoutEach(m, PairsOf(rows)), Without(m, Keys(rows)));
  }

  function Filter(table: seq<Row>, keys: set<Pair>): seq<Row> {
    if table == [] then [] else (if PairOf(table[0]) in keys then [] else [table[0]]) + Filter(table[1..], keys)
  }

  lemma {:induction false} FilterIsWithout(table: seq<Row>, keys: set<Pair>)
    ensures multiset(Filter(table, keys)) == Without(multiset(table), keys)
    decreases |table|
  {
    forall r
      ensures multiset(Filter(table, keys))[r] == Without(multiset(table), keys)[r]
    {
      WithoutIs(multiset(table), keys, r);
      FilterCount(table, keys, r);
    }
    SameIndex(multiset(Filter(table, keys)), Without(multiset(table), keys));
  }

  lemma {:induction false} FilterCount(table: seq<Row>, keys: set<Pair>, r: Row)
    ensures multiset(Filter(table, keys))[r] == if PairOf(r) in keys then 0 else multiset(table)[r]
    decreases |table|
  {
    if table != [] {
      FilterCount(table[1..], keys, r);
      assert table == [table[0]] + table[1..];
    }
  }

  class Search {
    var table: seq<Row>

    constructor ()
      ensures table == []
    {
      table := [];
    }

    method UpsertForFile(r: Row)
      modifies this
      ensures multiset(table) == Upsert(multiset(old(table)), r)
    {
      FilterIsWithout(table, {PairOf(r)});
      table := Filter(table, {PairOf(r)}) + [r];
    }

    // Five hundred rows at a time: one deletion and one insertion for each chunk.
    method UpsertMany(rows: seq<Row>)
      modifies this
      ensures multiset(table) == UpsertChunks(multiset(old(table)), rows, BATCH_CHUNK_SIZE)
      ensures DistinctWithinChunks(rows, BATCH_CHUNK_SIZE) ==> multiset(table) == UpsertEach(multiset(old(table)), rows)
    {
      var rest := rows;
      while rest != []
        invariant UpsertChunks(multiset(table), rest, BATCH_CHUNK_SIZE) ==
                    UpsertChunks(multiset(old(table)), rows, BATCH_CHUNK_SIZE)
        decreases |rest|
      {
        var n := if |rest| < BATCH_CHUNK_SIZE then |rest| else BATCH_CHUNK_SIZE;
        assert n == |rest| ==> rest[..n] == rest && rest[n..] == [];
        FilterIsWithout(table, Keys(rest[..n]));
        table := Filter(table, Keys(rest[..n])) + rest[..n];
        rest := rest[n..];
      }
      if DistinctWithinChunks(rows, BATCH_CHUNK_SIZE) {
        ManyIsEach(multiset(old(table)), rows, BATCH_CHUNK_SIZE);
      }
    }

    method DeleteManyForViewerFiles(pairs: seq<Pair>)
      modifies this
      ensures multiset(table) == WithoutEach(multiset(old(table)), pairs)
    {
      var rest := pairs;
      while rest != []
        invariant WithoutEach(multiset(table), rest) == WithoutEach(multiset(old(table)), pairs)
        decreases |rest|
      {
        var n := if |rest| < BATCH_CHUNK_SIZE then |rest| else BATCH_CHUNK_SIZE;
        var keys := set p | p in rest[..n];
        ghost var before := multiset(table);
        FilterIsWithout(table, keys);
        table := Filter(table, keys);
        ChunkDeletes(before, rest, n);
        rest := rest[n..];
      }
    }

    // One batch of all files for all recipients.
    method FanOutForShare(files: seq<FileRow>, recipients: seq<string>)
      modifies this
      ensures multiset(table) == if recipients == [] then multiset(old(table))
                                 else UpsertChunks(multiset(old(table)), Rows(files, recipients), BATCH_CHUNK_SIZE)
    {
      if recipients == [] {
        return;
      }
      var batch := Batch(files, recipients);
      UpsertMany(batch);
    }

    // Deletes the rows of all files for all former recipients.
    method FanOutForUnshare(files: seq<FileRow>, recipients: seq<string>)
      modifies this
      ensures multiset(table) == Without(multiset(old(table)), Keys(Rows(files, recipients)))
    {
      var pairs := Pairs(files, recipients);
      DeleteManyForViewerFiles(pairs);
      PairsAreKeys(multiset(old(table)), Rows(files, recipients));
    }
  }

  lemma ChunkDeletes(m: Index, pairs: seq<Pair>, n: nat)
    requires n <= |pairs|
    ensures WithoutEach(Without(m, set p | p in pairs[..n]), pairs[n..]) == WithoutEach(m, pairs)
  {
    var keys := set p | p in pairs[..n];
    forall r
      ensures WithoutEach(Without(m, keys), pairs[n..])[r] == WithoutEach(m, pairs)[r]
    {
      WithoutEachIs(Without(m, keys), pairs[n..], r);
      WithoutEachIs(m, pairs, r);
      WithoutIs(m, keys, r);
      assert pairs == pairs[..n] + pairs[n..];
    }
    SameIndex(WithoutEach(Without(m, keys), pairs[n..]), WithoutEach(m, pairs));
  }
}
