// The local disk as a map from path to entry, with a schedule that decides which operation
// fails.  Statements about every schedule are statements about every failure path.
module Disks {
  import opened Wrappers
  import opened StoragePaths
  import opened PlainTree

  datatype Entry = FileEntry(content: seq<nat>) | DirEntry | OtherEntry

  type Entries = map<Path, Entry>

  // A failing write leaves a prefix of the bytes, a failing recursive removal leaves the
  // entries of `kept` and the directories above them.
  datatype Fault = Works | Fails(written: nat, kept: set<Path>)

  // The schedule is a list of faults; once it is used up everything works.
  function FaultAt(faults: seq<Fault>, k: nat): Fault {
    if k < |faults| then faults[k] else Works
  }

  ghost predicate Closed(es: Entries) {
    forall p {:trigger InDir(es, p)} :: p in es ==> InDir(es, p)
  }

  predicate InDir(es: Entries, p: Path) {
    p != [] ==> Parent(p) in es && es[Parent(p)].DirEntry?
  }

  function Children(es: Entries, d: Path): set<string> {
    set p | p in es && p != [] && Parent(p) == d :: Basename(p)
  }

  // The subtree at `a` in one state equals the subtree at `b` in another.
  ghost predicate SameTree(es: Entries, a: Path, es': Entries, b: Path) {
    forall r: Path :: SameEntry(es, a, es', b, r)
  }

  ghost predicate SameEntry(es: Entries, a: Path, es': Entries, b: Path, r: Path) {
    (a + r in es <==> b + r in es') && (a + r in es && b + r in es' ==> es[a + r] == es'[b + r])
  }

  // Nothing outside the subtree at `d` has changed.
  ghost predicate SameOutside(es: Entries, es': Entries, d: Path) {
    forall p :: !(d <= p) ==> (p in es <==> p in es') && (p in es && p in es' ==> es[p] == es'[p])
  }

  ghost predicate AllWork(faults: seq<Fault>, from: nat, to: nat) {
    forall k: nat :: from <= k < to ==> FaultAt(faults, k).Works?
  }

  // Every missing directory on the way to `d` made.
  function WithDirs(es: Entries, d: Path): Entries {
    map p | p in es.Keys + OnTheWay(d) :: if p in es then es[p] else DirEntry
  }

  function OnTheWay(d: Path): set<Path> {
    set i | 0 <= i <= |d| :: d[..i]
  }

  // No entry on the way to `d`, nor `d` itself, is something else than a directory.
  predicate Passable(es: Entries, d: Path) {
    forall i :: 0 <= i <= |d| && d[..i] in es ==> es[d[..i]].DirEntry?
  }

  // `es'` has everything `es` has, plus directories on the way to `d`.
  ghost predicate DirsAdded(es: Entries, es': Entries, d: Path) {
    && (forall p :: p in es ==> p in es' && es'[p] == es[p])
    && (forall p :: p in es' && p !in es ==> es'[p].DirEntry? && p <= d)
  }

  function Without(es: Entries, d: Path): Entries {
    map p | p in es && !(d <= p) :: es[p]
  }

  // A removal of `d` that has left the entries of `kept` and the directories above them.
  function SomeKept(es: Entries, d: Path, kept: set<Path>): Entries {
    map p | p in es && (!(d <= p) || exists k :: k in kept && p <= k) :: es[p]
  }

  function Renamed(es: Entries, src: Path, dst: Path): Entries {
    map p | p in es.Keys + (set q | q in es && src <= q :: Subst(src, dst, q)) &&
            (if dst <= p then Subst(dst, src, p) in es else p in es && !(src <= p)) ::
      if dst <= p then es[Subst(dst, src, p)] else es[p]
  }

  predicate EmptyAt(es: Entries, d: Path) {
    forall p :: p in es ==> !(d < p)
  }

  // The target is free, or is something rename(2) silently replaces.
  predicate Replaceable(es: Entries, src: Path, dst: Path)
    requires src in es
  {
    dst !in es || (es[src].DirEntry? == es[dst].DirEntry? && EmptyAt(es, dst))
  }

  class Disk {
    var entries: Entries
    // Operations performed so far: the position in the schedule.
    var ops: nat
    const faults: seq<Fault>

    constructor (entries: Entries, faults: seq<Fault>)
      ensures this.entries == entries && ops == 0 && this.faults == faults
    {
      this.entries := entries;
      this.ops := 0;
      this.faults := faults;
    }

    method Tick() returns (f: Fault)
      modifies this`ops
      ensures ops == old(ops) + 1 && f == FaultAt(faults, old(ops))
    {
      f := FaultAt(faults, ops);
      ops := ops + 1;
    }

    method ReadDir(d: Path) returns (r: Option<set<string>>)
      modifies this`ops
      ensures ops == old(ops) + 1
      ensures r.Some? <==> FaultAt(faults, old(ops)).Works? && d in entries && entries[d].DirEntry?
      ensures r.Some? ==> r.value == Children(entries, d)
    {
      var f := Tick();
      if f.Works? && d in entries && entries[d].DirEntry? {
        return Some(Children(entries, d));
      }
      return None;
    }

    method CreateDir(p: Path) returns (ok: bool)
      modifies this
      ensures ops == old(ops) + 1
      ensures ok <==> FaultAt(faults, old(ops)).Works? && p !in old(entries) && InDir(old(entries), p)
      ensures entries == if ok then old(entries)[p := DirEntry] else old(entries)
      ensures Closed(old(entries)) ==> Closed(entries)
    {
      var f := Tick();
      ok := f.Works? && p !in entries && InDir(entries, p);
      if ok {
        AddClosed(entries, p, DirEntry);
        entries := entries[p := DirEntry];
      }
    }

    // Create a new file and copy bytes into it; a failure midway leaves a prefix.
    method WriteNew(p: Path, content: seq<nat>) returns (ok: bool)
      modifies this
      ensures ops == old(ops) + 1
      ensures ok <==> FaultAt(faults, old(ops)).Works? && p !in old(entries) && InDir(old(entries), p)
      ensures ok ==> entries == old(entries)[p := FileEntry(content)]
      ensures !ok ==> entries == old(entries) ||
                      (p !in old(entries) &&
                       exists k :: 0 <= k <= |content| && entries == old(entries)[p := FileEntry(content[..k])])
      ensures Closed(old(entries)) ==> Closed(entries)
    {
      var f := Tick();
      if p in entries || !InDir(entries, p) {
        return false;
      }
      if f.Fails? {
        if 0 < f.written <= |content| {
          AddClosed(entries, p, FileEntry(content[..f.written]));
          entries := entries[p := FileEntry(content[..f.written])];
        }
        return false;
      }
      AddClosed(entries, p, FileEntry(content));
      entries := entries[p := FileEntry(content)];
      return true;
    }

    // The same in two steps: open a new, empty file; then fill it.
    method CreateNew(p: Path) returns (ok: bool)
      modifies this
      ensures ops == old(ops) + 1
      ensures ok <==> FaultAt(faults, old(ops)).Works? && p !in old(entries) && InDir(old(entries), p)
      ensures entries == if ok then old(entries)[p := FileEntry([])] else old(entries)
    {
      var f := Tick();
      ok := f.Works? && p !in entries && InDir(entries, p);
      if ok {
        entries := entries[p := FileEntry([])];
      }
    }

    method Fill(p: Path, content: seq<nat>) returns (ok: bool)
      requires p in entries
      modifies this
      ensures ops == old(ops) + 1
      ensures ok <==> FaultAt(faults, old(ops)).Works?
      ensures ok ==> entries == old(entries)[p := FileEntry(content)]
      ensures exists k :: 0 <= k <= |content| && entries == old(entries)[p := FileEntry(content[..k])]
    {
      var f := Tick();
      ok := f.Works?;
      var k := if f.Works? || f.written > |content| then |content| else f.written;
      assert ok ==> content[..k] == content;
      entries := entries[p := FileEntry(content[..k])];
    }

    method RemoveFile(p: Path) returns (ok: bool)
      modifies this
      ensures ops == old(ops) + 1
      ensures ok <==> FaultAt(faults, old(ops)).Works? && p in old(entries) && !old(entries)[p].DirEntry?
      ensures entries == if ok then old(entries) - {p} else old(entries)
    {
      var f := Tick();
      ok := f.Works? && p in entries && !entries[p].DirEntry?;
      if ok {
        entries := entries - {p};
      }
    }

    // `remove_dir_all`: a failure may already have removed some of the tree.
    method RemoveDirAll(d: Path) returns (ok: bool)
      modifies this
      ensures ops == old(ops) + 1
      ensures ok <==> FaultAt(faults, old(ops)).Works? && d in old(entries) && old(entries)[d].DirEntry?
      ensures ok ==> entries == Without(old(entries), d)
      ensures SameOutside(old(entries), entries, d)
      ensures forall p :: p in entries ==> p in old(entries)
      ensures Closed(old(entries)) ==> Closed(entries)
    {
      var f := Tick();
      if d !in entries || !entries[d].DirEntry? {
        return false;
      }
      if f.Fails? {
        SomeKeptClosed(entries, d, f.kept);
        entries := SomeKept(entries, d, f.kept);
        return false;
      }
      if Closed(entries) {
        WithoutClosed(entries, d);
      }
      entries := Without(entries, d);
      return true;
    }

    // A failure may leave some of the directories made.
    method CreateDirAll(d: Path) returns (ok: bool)
      modifies this
      ensures ops == old(ops) + 1 && DirsAdded(old(entries), entries, d)
      ensures Closed(old(entries)) ==> Closed(entries)
      ensures ok <==> FaultAt(faults, old(ops)).Works? && Passable(old(entries), d)
      ensures ok ==> entries == WithDirs(old(entries), d)
    {
      var f := Tick();
      ghost var es := entries;
      var i := 0;
      while i <= |d|
        invariant 0 <= i <= |d| + 1 && DirsAdded(es, entries, d) && ops == old(ops) + 1
        invariant Closed(es) ==> Closed(entries)
        invariant forall j :: 0 <= j < i ==> d[..j] in entries && entries[d[..j]].DirEntry?
        invariant forall j :: 0 <= j < i && d[..j] in es ==> es[d[..j]].DirEntry?
      {
        if f.Fails? && i >= f.written {
          return false;
        }
        var a := d[..i];
        if a in entries && !entries[a].DirEntry? {
          assert a <= d && a in es;
          return false;
        }
        if a !in entries {
          assert i > 0 ==> Parent(a) == d[..i - 1];
          AddClosed(entries, a, DirEntry);
          entries := entries[a := DirEntry];
        }
        i := i + 1;
      }
      AllDirsAdded(es, entries, d);
      return f.Works?;
    }

    // `metadata`: the entry, or nothing if there is none.
    method Metadata(p: Path) returns (r: Option<Option<Entry>>)
      modifies this`ops
      ensures ops == old(ops) + 1
      ensures r.Some? <==> FaultAt(faults, old(ops)).Works? && (p == [] || Passable(entries, Parent(p)))
      ensures r.Some? ==> r.value == if p in entries then Some(entries[p]) else None
    {
      var f := Tick();
      if f.Fails? || (p != [] && !Passable(entries, Parent(p))) {
        return None;
      }
      return Some(if p in entries then Some(entries[p]) else None);
    }

    // Looking up a path that runs through something else than a directory is an error.
    method TryExists(p: Path) returns (r: Option<bool>)
      modifies this`ops
      ensures ops == old(ops) + 1
      ensures r.Some? <==> FaultAt(faults, old(ops)).Works? && (p == [] || Passable(entries, Parent(p)))
      ensures r.Some? ==> r.value == (p in entries)
    {
      var f := Tick();
      return if f.Works? && (p == [] || Passable(entries, Parent(p))) then Some(p in entries) else None;
    }

    method Rename(src: Path, dst: Path) returns (ok: bool)
      modifies this
      ensures ops == old(ops) + 1
      ensures ok <==>
                FaultAt(faults, old(ops)).Works? && src in old(entries) && InDir(old(entries), dst) &&
                !(src <= dst) &&
                Replaceable(old(entries), src, dst)
      ensures entries == if ok then Renamed(old(entries), src, dst) else old(entries)
    {
      var f := Tick();
      ok := f.Works? && src in entries && InDir(entries, dst) && !(src <= dst) && Replaceable(entries, src, dst);
      if ok {
        entries := Renamed(entries, src, dst);
      }
    }
  }

  lemma {:induction false} AncestorInDisk(es: Entries, p: Path, a: Path)
    requires Closed(es) && p in es && a <= p
    ensures a in es && (a < p ==> es[a].DirEntry?)
    decreases |p|
  {
    if a < p {
      assert InDir(es, p);
      assert a <= Parent(p);
      AncestorInDisk(es, Parent(p), a);
      if a != Parent(p) {
        ProperPrefix(a, Parent(p));
      }
    } else {
      assert a == p;
    }
  }

  lemma ReachablePassable(es: Entries, p: Path)
    requires Closed(es) && p in es && p != []
    ensures Passable(es, Parent(p))
  {
    var d := Parent(p);
    forall i | 0 <= i <= |d| && d[..i] in es
      ensures es[d[..i]].DirEntry?
    {
      assert d[..i] <= p && d[..i] != p;
      ProperPrefix(d[..i], p);
      AncestorInDisk(es, p, d[..i]);
    }
  }

  lemma OneWorks(faults: seq<Fault>, k: nat)
    ensures AllWork(faults, k, k + 1) <==> FaultAt(faults, k).Works?
  {
  }

  lemma WorkTogether(faults: seq<Fault>, a: nat, b: nat, c: nat)
    requires a <= b <= c
    ensures AllWork(faults, a, c) <==> AllWork(faults, a, b) && AllWork(faults, b, c)
  {
  }

  lemma AddClosed(es: Entries, a: Path, e: Entry)
    requires InDir(es, a) && a !in es
    ensures Closed(es) ==> Closed(es[a := e])
  {
    var es' := es[a := e];
    if Closed(es) {
      forall p | p in es'
        ensures InDir(es', p)
      {
        assert p in es ==> InDir(es, p);
      }
    }
  }

  lemma SomeKeptClosed(es: Entries, d: Path, kept: set<Path>)
    ensures Closed(es) ==> Closed(SomeKept(es, d, kept))
  {
    var es' := SomeKept(es, d, kept);
    if Closed(es) {
      forall p | p in es'
        ensures InDir(es', p)
      {
        assert InDir(es, p);
        if p != [] {
          assert Parent(p) <= p;
          if k :| k in kept && p <= k {
            assert Parent(p) <= k;
          }
        }
      }
    }
  }

  lemma AllDirsAdded(es: Entries, es': Entries, d: Path)
    requires DirsAdded(es, es', d)
    requires forall j :: 0 <= j <= |d| ==> d[..j] in es' && es'[d[..j]].DirEntry?
    ensures es' == WithDirs(es, d)
  {
    forall p
      ensures p in es' <==> p in WithDirs(es, d)
    {
      if p in es' && p !in es {
        assert p == d[..|p|];
      }
    }
  }

  lemma WithDirsFacts(es: Entries, d: Path)
    requires Passable(es, d)
    ensures DirsAdded(es, WithDirs(es, d), d)
    ensures d in WithDirs(es, d) && WithDirs(es, d)[d].DirEntry?
    ensures Closed(es) ==> Closed(WithDirs(es, d))
  {
    var es' := WithDirs(es, d);
    assert d == d[..|d|];
    if Closed(es) {
      forall p | p in es'
        ensures InDir(es', p)
      {
        if p in es {
          assert InDir(es, p);
        } else if p != [] {
          var i :| 0 <= i <= |d| && p == d[..i];
          assert Parent(p) == d[..i - 1];
        }
      }
    }
  }

  // A rename moves the whole subtree and touches nothing else but what stood at the target.
  lemma RenamedMoves(es: Entries, src: Path, dst: Path)
    requires !(src <= dst)
    ensures SameTree(es, src, Renamed(es, src, dst), dst)
    ensures forall p :: p in Renamed(es, src, dst) && !(dst <= p) ==>
              p in es && !(src <= p) && Renamed(es, src, dst)[p] == es[p]
    ensures forall p :: p in es && !(src <= p) && !(dst <= p) ==>
              p in Renamed(es, src, dst) && Renamed(es, src, dst)[p] == es[p]
  {
    forall r: Path
      ensures SameEntry(es, src, Renamed(es, src, dst), dst, r)
    {
      assert (dst + r)[|dst|..] == r && (src + r)[|src|..] == r;
      assert src + r in es ==> Subst(src, dst, src + r) == dst + r;
    }
  }

  lemma RenamedClosed(es: Entries, src: Path, dst: Path)
    requires Closed(es) && Vacant(es.Keys, dst) && !(src <= dst) && InDir(es, dst) && src != []
    ensures Closed(Renamed(es, src, dst))
  {
    var es' := Renamed(es, src, dst);
    RenamedMoves(es, src, dst);
    forall p | p in es'
      ensures InDir(es', p)
    {
      if p == dst {
        assert dst != [] ==> Parent(dst) <= dst;
      } else if dst <= p {
        ProperPrefix(dst, p);
        RenamedInDir(es, src, dst, p);
      } else {
        assert InDir(es, p);
        assert p != [] && src <= Parent(p) ==> src <= p;
      }
    }
  }

  lemma RenamedInDir(es: Entries, src: Path, dst: Path, p: Path)
    requires Closed(es) && Vacant(es.Keys, dst) && !(src <= dst) && src != []
    requires dst < p && p in Renamed(es, src, dst)
    ensures InDir(Renamed(es, src, dst), p)
  {
    var q := Subst(dst, src, p);
    SubstFacts(dst, src, p);
    RenamedMoves(es, src, dst);
    assert InDir(es, q);
    var r := Parent(p)[|dst|..];
    assert Parent(p) == dst + r && Parent(q) == src + r;
    assert SameEntry(es, src, Renamed(es, src, dst), dst, r);
  }

  lemma WithoutClosed(es: Entries, d: Path)
    requires Closed(es)
    ensures Closed(Without(es, d))
  {
    forall p | p in Without(es, d)
      ensures InDir(Without(es, d), p)
    {
      assert InDir(es, p);
      assert p != [] ==> Parent(p) <= p;
    }
  }
}
