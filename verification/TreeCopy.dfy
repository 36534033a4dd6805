// Copying a directory tree with an explicit stack of open directories.
module TreeCopy {
  import opened Wrappers
  import opened StoragePaths
  import opened PlainTree
  import opened Disks

  // One open directory: where it is, where its copy is, and the names not yet returned.
  datatype Frame = Frame(src: Path, dst: Path, names: set<string>)

  // The disk with the tree below `src` copied below `dst`: what structural recursion gives.
  function Grafted(es: Entries, src: Path, dst: Path): Entries {
    map p | p in es.Keys + (set q | q in es && src < q :: Subst(src, dst, q)) &&
      (dst < p ==> Subst(dst, src, p) in es) ::
      if dst < p then es[Subst(dst, src, p)] else es[p]
  }

  // Some open directory still has to return the entry above or at `q`.
  ghost predicate Pending(stack: seq<Frame>, q: Path) {
    exists i, n :: 0 <= i < |stack| && n in stack[i].names && stack[i].src + [n] <= q
  }

  // The stack is a chain of directories: each was returned by the one before it.
  ghost predicate Chain(stack: seq<Frame>, src: Path, dst: Path) {
    && (forall i :: 0 <= i < |stack| ==> src <= stack[i].src && stack[i].dst == Subst(src, dst, stack[i].src))
    && (forall i, j :: 0 <= i < j < |stack| ==>
        stack[i].src < stack[j].src && stack[j].src[|stack[i].src|] !in stack[i].names)
  }

  // A path below `dst` exists exactly if its original does and is not pending, with the same
  // contents; any other path is as it was.
  ghost predicate PathRight(es0: Entries, es: Entries, stack: seq<Frame>, src: Path, dst: Path, p: Path) {
    if dst < p then
      var q := Subst(dst, src, p);
      (p in es <==> q in es0 && !Pending(stack, q)) && (p in es && q in es0 ==> es[p] == es0[q] && !es[p].OtherEntry?)
    else
      (p in es <==> p in es0) && (p in es && p in es0 ==> es[p] == es0[p])
  }

  ghost predicate FrameOpen(es0: Entries, es: Entries, f: Frame) {
    && f.src in es0 && es0[f.src].DirEntry? && f.names <= Children(es0, f.src)
    && f.dst in es && es[f.dst].DirEntry?
  }

  ghost predicate CopiedSoFar(es0: Entries, es: Entries, stack: seq<Frame>, src: Path, dst: Path) {
    && Chain(stack, src, dst)
    && (forall i :: 0 <= i < |stack| ==> FrameOpen(es0, es, stack[i]))
    && (forall p {:trigger PathRight(es0, es, stack, src, dst, p)} :: PathRight(es0, es, stack, src, dst, p))
  }

  ghost predicate Disjoint(src: Path, dst: Path) {
    !(src <= dst) && !(dst <= src)
  }

  // An empty directory ready to receive the copy.
  ghost predicate EmptyDir(es: Entries, dst: Path) {
    dst in es && es[dst].DirEntry? && forall p :: p in es ==> !(dst < p)
  }

  ghost predicate OnlyFilesAndDirs(es: Entries, src: Path) {
    forall q :: q in es && src < q ==> !es[q].OtherEntry?
  }

  // A copy of the directory `src`, which must hold nothing but files and directories, as
  // the new directory `dst` inside `bin`.
  function CopiedInto(es: Entries, bin: Path, src: Path, dst: Path): Entries {
    Grafted(WithDirs(es, bin)[dst := DirEntry], src, dst)
  }

  ghost predicate CanCopyInto(es: Entries, bin: Path, src: Path, dst: Path) {
    src in es && es[src].DirEntry? && OnlyFilesAndDirs(es, src) && Passable(es, bin) && dst !in es
  }

  // ---------- the entries below a directory ----------

  lemma ChildOnTheWay(es: Entries, d: Path, q: Path)
    requires Closed(es) && q in es && d < q
    ensures q[|d|] in Children(es, d) && d + [q[|d|]] <= q && d + [q[|d|]] in es && d in es && es[d].DirEntry?
  {
    var c := d + [q[|d|]];
    assert c == q[..|d| + 1];
    AncestorInDisk(es, q, c);
    AncestorInDisk(es, q, d);
    assert Parent(c) == d && Basename(c) == q[|d|];
  }

  // ---------- what the stack still has to do ----------

  // Returning one name takes exactly that entry's subtree off the list.
  lemma DropName(stack: seq<Frame>, f: Frame, n: string, src: Path, dst: Path, q: Path)
    requires Chain(stack + [f], src, dst) && n in f.names
    ensures
      var stack' := stack + [f.(names := f.names - {n})];
      && (Pending(stack + [f], q) <==> Pending(stack', q) || f.src + [n] <= q)
      && (f.src + [n] <= q ==> !Pending(stack', q))
  {
    var full, stack' := stack + [f], stack + [f.(names := f.names - {n})];
    if Pending(full, q) && !(f.src + [n] <= q) {
      var i, m :| 0 <= i < |full| && m in full[i].names && full[i].src + [m] <= q;
      assert m in stack'[i].names && stack'[i].src + [m] <= q;
    }
    if Pending(stack', q) {
      var i, m :| 0 <= i < |stack'| && m in stack'[i].names && stack'[i].src + [m] <= q;
      assert m in full[i].names && full[i].src + [m] <= q;
    }
    if f.src + [n] <= q {
      assert full[|stack|] == f && n in full[|stack|].names;
      FirstStep(f.src, n, q);
      forall i, m | 0 <= i < |stack'| && m in stack'[i].names
        ensures !(stack'[i].src + [m] <= q)
      {
        FirstStep(stack'[i].src, m, q);
        assert i < |stack| ==> full[i].src < full[|stack|].src && full[|stack|].src[|full[i].src|] !in full[i].names;
      }
    }
  }

  lemma FirstStep(a: Path, x: string, q: Path)
    ensures a + [x] <= q ==> |a| < |q| && q[|a|] == x && a < q
  {
    if a + [x] <= q {
      assert (a + [x])[|a|] == x;
      assert q[..|a|] == (a + [x])[..|a|];
    }
  }

  // Opening a directory puts exactly what lies below it on the list.
  lemma PushDir(es: Entries, stack: seq<Frame>, f: Frame, q: Path)
    requires Closed(es) && q in es && f.names == Children(es, f.src)
    ensures Pending(stack + [f], q) <==> Pending(stack, q) || f.src < q
  {
    var full := stack + [f];
    if Pending(stack, q) {
      var i, m :| 0 <= i < |stack| && m in stack[i].names && stack[i].src + [m] <= q;
      assert m in full[i].names && full[i].src + [m] <= q;
    }
    if f.src < q {
      ChildOnTheWay(es, f.src, q);
      assert full[|stack|] == f && q[|f.src|] in full[|stack|].names;
    }
    if Pending(full, q) && !Pending(stack, q) {
      var i, m :| 0 <= i < |full| && m in full[i].names && full[i].src + [m] <= q;
      assert i == |stack|;
      assert f.src < f.src + [m];
    }
  }

  lemma PopEmpty(stack: seq<Frame>, f: Frame, q: Path)
    requires f.names == {}
    ensures Pending(stack + [f], q) <==> Pending(stack, q)
  {
    var full := stack + [f];
    if Pending(full, q) {
      var i, m :| 0 <= i < |full| && m in full[i].names && full[i].src + [m] <= q;
      assert m in stack[i].names && stack[i].src + [m] <= q;
    }
    if Pending(stack, q) {
      var i, m :| 0 <= i < |stack| && m in stack[i].names && stack[i].src + [m] <= q;
      assert m in full[i].names && full[i].src + [m] <= q;
    }
  }

  // ---------- the steps of the copy ----------

  lemma ChildPath(es: Entries, d: Path, n: string)
    requires n in Children(es, d)
    ensures d + [n] in es
  {
    var p :| p in es && p != [] && Parent(p) == d && Basename(p) == n;
    assert p == d + [n];
  }

  lemma CopyStart(es: Entries, src: Path, dst: Path)
    requires Closed(es) && EmptyDir(es, dst) && Disjoint(src, dst) && src in es && es[src].DirEntry?
    ensures CopiedSoFar(es, es, [Frame(src, dst, Children(es, src))], src, dst)
  {
    var f := Frame(src, dst, Children(es, src));
    assert Subst(src, dst, src) == dst;
    forall p
      ensures PathRight(es, es, [f], src, dst, p)
    {
      if dst < p {
        var q := Subst(dst, src, p);
        SubstFacts(dst, src, p);
        if q in es {
          PushDir(es, [], f, q);
          assert [] + [f] == [f];
        }
      }
    }
  }

  lemma BelowDisjoint(src: Path, dst: Path, q: Path)
    requires Disjoint(src, dst) && src <= q
    ensures !(dst <= q)
  {
    PrefixesComparable(src, dst, q);
  }

  // While the copy runs the source side of the disk is untouched.
  lemma SameChildren(es0: Entries, es: Entries, stack: seq<Frame>, src: Path, dst: Path, d: Path)
    requires CopiedSoFar(es0, es, stack, src, dst) && Disjoint(src, dst) && src <= d
    ensures Children(es, d) == Children(es0, d)
    ensures d in es <==> d in es0
    ensures d in es0 && d in es ==> es[d] == es0[d]
  {
    forall p | p == d || (p != [] && Parent(p) == d)
      ensures p in es <==> p in es0
      ensures p in es && p in es0 ==> es[p] == es0[p]
    {
      assert src <= p by { if p != d { assert d < p; } }
      BelowDisjoint(src, dst, p);
      assert PathRight(es0, es, stack, src, dst, p);
    }
  }

  // The copy of the entry just returned does not exist yet, and its directory does.
  lemma TargetFree(es0: Entries, es: Entries, stack: seq<Frame>, f: Frame, n: string, src: Path, dst: Path)
    requires CopiedSoFar(es0, es, stack + [f], src, dst) && Disjoint(src, dst) && n in f.names
    ensures f.src + [n] in es0 && f.dst + [n] !in es && InDir(es, f.dst + [n])
    ensures dst < f.dst + [n] && Subst(dst, src, f.dst + [n]) == f.src + [n] && src < f.src + [n]
    ensures Subst(src, dst, f.src + [n]) == f.dst + [n]
  {
    var full := stack + [f];
    assert full[|stack|] == f;
    assert FrameOpen(es0, es, f);
    ChildPath(es0, f.src, n);
    var q, p := f.src + [n], f.dst + [n];
    assert f.src < q && src <= f.src && src < q;
    SubstFacts(src, dst, f.src);
    assert q[|src|..] == f.src[|src|..] + [n];
    assert Subst(src, dst, q) == p;
    SubstFacts(src, dst, q);
    assert n in full[|stack|].names && full[|stack|].src + [n] <= q;
    assert PathRight(es0, es, full, src, dst, p);
    assert Parent(p) == f.dst;
  }

  lemma ChainAfter(stack: seq<Frame>, f: Frame, n: string, src: Path, dst: Path)
    requires Chain(stack + [f], src, dst) && n in f.names
    ensures Chain(stack + [f.(names := f.names - {n})], src, dst)
  {
    var full, full' := stack + [f], stack + [f.(names := f.names - {n})];
    forall i, j | 0 <= i < j < |full'|
      ensures full'[i].src < full'[j].src && full'[j].src[|full'[i].src|] !in full'[i].names
    {
      assert full[i].src < full[j].src && full[j].src[|full[i].src|] !in full[i].names;
    }
    forall i | 0 <= i < |full'|
      ensures src <= full'[i].src && full'[i].dst == Subst(src, dst, full'[i].src)
    {
      assert src <= full[i].src && full[i].dst == Subst(src, dst, full[i].src);
    }
  }

  lemma FramesStayOpen(es0: Entries, es: Entries, es': Entries, stack: seq<Frame>, f: Frame, f': Frame)
    requires forall i :: 0 <= i < |stack + [f]| ==> FrameOpen(es0, es, (stack + [f])[i])
    requires f'.src == f.src && f'.dst == f.dst && f'.names <= f.names
    requires forall p :: p in es ==> p in es' && es'[p] == es[p]
    ensures forall i :: 0 <= i < |stack + [f']| ==> FrameOpen(es0, es', (stack + [f'])[i])
  {
    forall i | 0 <= i < |stack + [f']|
      ensures FrameOpen(es0, es', (stack + [f'])[i])
    {
      assert FrameOpen(es0, es, (stack + [f])[i]);
    }
  }

  lemma FileCopied(es0: Entries, es: Entries, stack: seq<Frame>, f: Frame, n: string, src: Path, dst: Path)
    requires Closed(es0) && CopiedSoFar(es0, es, stack + [f], src, dst) && Disjoint(src, dst) && n in f.names
    requires f.src + [n] in es0 && es0[f.src + [n]].FileEntry?
    ensures CopiedSoFar(es0, es[f.dst + [n] := es0[f.src + [n]]], stack + [f.(names := f.names - {n})], src, dst)
  {
    var f', q0, p0 := f.(names := f.names - {n}), f.src + [n], f.dst + [n];
    var es' := es[p0 := es0[q0]];
    TargetFree(es0, es, stack, f, n, src, dst);
    ChainAfter(stack, f, n, src, dst);
    FramesStayOpen(es0, es, es', stack, f, f');
    forall p
      ensures PathRight(es0, es', stack + [f'], src, dst, p)
    {
      assert PathRight(es0, es, stack + [f], src, dst, p);
      if dst < p {
        var q := Subst(dst, src, p);
        SubstFacts(dst, src, p);
        DropName(stack, f, n, src, dst, q);
        if q in es0 && q0 <= q {
          AncestorInDisk(es0, q, q0);
          if q != q0 {
            ProperPrefix(q0, q);
          }
        }
      }
    }
  }

  lemma DirCopied(es0: Entries, es: Entries, stack: seq<Frame>, f: Frame, n: string, src: Path, dst: Path)
    requires Closed(es0) && CopiedSoFar(es0, es, stack + [f], src, dst) && Disjoint(src, dst) && n in f.names
    requires f.src + [n] in es0 && es0[f.src + [n]].DirEntry?
    ensures
      var child := Frame(f.src + [n], f.dst + [n], Children(es0, f.src + [n]));
      CopiedSoFar(es0, es[f.dst + [n] := DirEntry], stack + [f.(names := f.names - {n})] + [child], src, dst)
  {
    var f', q0, p0 := f.(names := f.names - {n}), f.src + [n], f.dst + [n];
    var child := Frame(q0, p0, Children(es0, q0));
    var es' := es[p0 := DirEntry];
    TargetFree(es0, es, stack, f, n, src, dst);
    ChainAfter(stack, f, n, src, dst);
    ChainPush(stack, f', child, n, src, dst);
    FramesStayOpen(es0, es, es', stack, f, f');
    forall p
      ensures PathRight(es0, es', stack + [f'] + [child], src, dst, p)
    {
      assert PathRight(es0, es, stack + [f], src, dst, p);
      if dst < p {
        var q := Subst(dst, src, p);
        SubstFacts(dst, src, p);
        DropName(stack, f, n, src, dst, q);
        if q in es0 {
          PushDir(es0, stack + [f'], child, q);
          if q != q0 {
            ProperPrefix(q0, q);
          }
        }
      }
    }
  }

  lemma ChainPush(stack: seq<Frame>, f: Frame, child: Frame, n: string, src: Path, dst: Path)
    requires Chain(stack + [f], src, dst) && n !in f.names && child.src == f.src + [n]
    requires src <= child.src && child.dst == Subst(src, dst, child.src)
    ensures Chain(stack + [f] + [child], src, dst)
  {
    var full, all := stack + [f], stack + [f] + [child];
    forall i, j | 0 <= i < j < |all|
      ensures all[i].src < all[j].src && all[j].src[|all[i].src|] !in all[i].names
    {
      if j < |full| {
        assert full[i].src < full[j].src && full[j].src[|full[i].src|] !in full[i].names;
      } else if i < |stack| {
        assert full[i].src < full[|stack|].src && full[|stack|].src[|full[i].src|] !in full[i].names;
      }
    }
    forall i | 0 <= i < |all|
      ensures src <= all[i].src && all[i].dst == Subst(src, dst, all[i].src)
    {
      assert i < |full| ==> src <= full[i].src && full[i].dst == Subst(src, dst, full[i].src);
    }
  }

  // A drained directory leaves the stack.
  lemma FrameDone(es0: Entries, es: Entries, stack: seq<Frame>, f: Frame, src: Path, dst: Path)
    requires CopiedSoFar(es0, es, stack + [f], src, dst) && f.names == {}
    ensures CopiedSoFar(es0, es, stack, src, dst)
  {
    var full := stack + [f];
    forall i | 0 <= i < |stack|
      ensures FrameOpen(es0, es, stack[i])
    {
      assert full[i] == stack[i];
    }
    forall i, j | 0 <= i < j < |stack|
      ensures stack[i].src < stack[j].src && stack[j].src[|stack[i].src|] !in stack[i].names
    {
      assert full[i].src < full[j].src && full[j].src[|full[i].src|] !in full[i].names;
    }
    forall i | 0 <= i < |stack|
      ensures src <= stack[i].src && stack[i].dst == Subst(src, dst, stack[i].src)
    {
      assert full[i] == stack[i];
    }
    forall p
      ensures PathRight(es0, es, stack, src, dst, p)
    {
      assert PathRight(es0, es, full, src, dst, p);
      PopEmpty(stack, f, Subst(dst, src, p));
    }
  }

  // Nothing is pending any more: the whole tree has been grafted.
  lemma CopyComplete(es0: Entries, es: Entries, src: Path, dst: Path)
    requires CopiedSoFar(es0, es, [], src, dst) && Disjoint(src, dst) && EmptyDir(es0, dst)
    ensures es == Grafted(es0, src, dst) && OnlyFilesAndDirs(es0, src)
  {
    forall p
      ensures p in es <==> p in Grafted(es0, src, dst)
      ensures p in es && p in Grafted(es0, src, dst) ==> es[p] == Grafted(es0, src, dst)[p]
    {
      assert PathRight(es0, es, [], src, dst, p);
      SubstFacts(dst, src, p);
      if dst < p && p in es {
        assert Subst(src, dst, Subst(dst, src, p)) == p by { SubstFacts(dst, src, p); }
      }
    }
    forall q | q in es0 && src < q
      ensures !es0[q].OtherEntry?
    {
      SubstFacts(src, dst, q);
      assert PathRight(es0, es, [], src, dst, Subst(src, dst, q));
    }
  }

  // ---------- the copy ----------

  ghost function Undone(es0: Entries, es: Entries, src: Path, dst: Path): set<Path> {
    set q | q in es0 && src < q && Subst(src, dst, q) !in es
  }

  lemma Progress(es0: Entries, es: Entries, es': Entries, src: Path, dst: Path, q: Path)
    requires q in es0 && src < q && Subst(src, dst, q) !in es && Subst(src, dst, q) in es'
    requires forall p :: p in es ==> p in es'
    ensures |Undone(es0, es', src, dst)| < |Undone(es0, es, src, dst)|
  {
    var less := Undone(es0, es', src, dst);
    var rest := Undone(es0, es, src, dst) - less;
    assert Undone(es0, es, src, dst) == less + rest && q in rest;
  }

  // Outside the target the disk is as it was.
  ghost predicate OutsideKept(es0: Entries, es: Entries, dst: Path) {
    forall p :: !(dst < p) ==> (p in es <==> p in es0) && (p in es && p in es0 ==> es[p] == es0[p])
  }

  lemma CopyKeepsOutside(es0: Entries, es: Entries, stack: seq<Frame>, src: Path, dst: Path)
    requires CopiedSoFar(es0, es, stack, src, dst)
    ensures OutsideKept(es0, es, dst)
  {
    forall p | !(dst < p)
      ensures (p in es <==> p in es0) && (p in es && p in es0 ==> es[p] == es0[p])
    {
      assert PathRight(es0, es, stack, src, dst, p);
    }
  }

  datatype Step = Stop | CopiedFile | Opened(names: set<string>)

  // One returned entry: copy a file, or create a directory and open it.
  method CopyEntry(fs: Disk, cur: Frame, name: string, ghost es0: Entries, ghost stack: seq<Frame>, ghost src: Path,
                   ghost dst: Path)
    returns (step: Step)
    requires Closed(es0) && Disjoint(src, dst) && CopiedSoFar(es0, fs.entries, stack + [cur], src, dst) &&
             name in cur.names
    modifies fs
    ensures fs.ops >= old(fs.ops) && OutsideKept(es0, fs.entries, dst)
    ensures Closed(old(fs.entries)) ==> Closed(fs.entries)
    ensures step.Stop? ==> !AllWork(fs.faults, old(fs.ops), fs.ops) || !OnlyFilesAndDirs(es0, src)
    ensures !step.Stop? ==> AllWork(fs.faults, old(fs.ops), fs.ops) &&
                            |Undone(es0, fs.entries, src, dst)| < |Undone(es0, old(fs.entries), src, dst)|
    ensures step.CopiedFile? ==> CopiedSoFar(es0, fs.entries, stack + [cur.(names := cur.names - {name})], src, dst)
    ensures step.Opened? ==>
              CopiedSoFar(es0, fs.entries, stack + [cur.(names := cur.names - {name})] +
                                           [Frame(cur.src + [name], cur.dst + [name], step.names)], src, dst)
  {
    var srcPath, dstPath := cur.src + [name], cur.dst + [name];
    ghost var es := fs.entries;
    TargetFree(es0, es, stack, cur, name, src, dst);
    SameChildren(es0, es, stack + [cur], src, dst, srcPath);
    CopyKeepsOutside(es0, es, stack + [cur], src, dst);
    match fs.entries[srcPath]
    case DirEntry =>
      var made := fs.CreateDir(dstPath);
      if !made {
        return Stop;
      }
      DirCopied(es0, es, stack, cur, name, src, dst);
      Progress(es0, es, fs.entries, src, dst, srcPath);
      ghost var child := Frame(srcPath, dstPath, Children(es0, srcPath));
      SameChildren(es0, fs.entries, stack + [cur.(names := cur.names - {name})] + [child], src, dst, srcPath);
      var names := fs.ReadDir(srcPath);
      return if names.Some? then Opened(names.value) else Stop;
    case FileEntry(content) =>
      var written := fs.WriteNew(dstPath, content);
      if !written {
        return Stop;
      }
      FileCopied(es0, es, stack, cur, name, src, dst);
      Progress(es0, es, fs.entries, src, dst, srcPath);
      return CopiedFile;
    case OtherEntry =>
      return Stop;
  }

  // Depth-first with a stack of open directories.  It succeeds exactly when the source is a
  // directory, holds only files and directories, and no operation fails; the result is
  // then the grafted tree, and in every case nothing outside the target has changed.
  method CopyDirRecursive(fs: Disk, src: Path, dst: Path) returns (ok: bool)
    requires Closed(fs.entries) && EmptyDir(fs.entries, dst) && Disjoint(src, dst)
    modifies fs
    ensures ok ==> fs.entries == Grafted(old(fs.entries), src, dst)
    ensures ok <==> src in old(fs.entries) && old(fs.entries)[src].DirEntry? &&
                    OnlyFilesAndDirs(old(fs.entries), src) && AllWork(fs.faults, old(fs.ops), fs.ops)
    ensures fs.ops > old(fs.ops) && OutsideKept(old(fs.entries), fs.entries, dst) && Closed(fs.entries)
  {
    ghost var es0, ops0 := fs.entries, fs.ops;
    var names := fs.ReadDir(src);
    if names.None? {
      return false;
    }
    var stack := [Frame(src, dst, names.value)];
    CopyStart(es0, src, dst);
    while stack != []
      invariant CopiedSoFar(es0, fs.entries, stack, src, dst)
      invariant fs.ops > ops0 && AllWork(fs.faults, ops0, fs.ops) && Closed(fs.entries)
      decreases |Undone(es0, fs.entries, src, dst)|, |stack|
    {
      var cur := stack[|stack| - 1];
      assert stack == stack[..|stack| - 1] + [cur];
      ghost var height := |stack|;
      stack := stack[..|stack| - 1];
      ghost var undone := |Undone(es0, fs.entries, src, dst)|;
      var descended := false;
      while cur.names != {} && !descended
        invariant CopiedSoFar(es0, fs.entries, if descended then stack else stack + [cur], src, dst)
        invariant descended ==> |Undone(es0, fs.entries, src, dst)| < undone
        invariant !descended ==> |Undone(es0, fs.entries, src, dst)| <= undone && |stack| < height
        invariant fs.ops > ops0 && AllWork(fs.faults, ops0, fs.ops) && Closed(fs.entries)
        decreases !descended, cur.names
      {
        var name :| name in cur.names;
        ghost var ops1 := fs.ops;
        var step := CopyEntry(fs, cur, name, es0, stack, src, dst);
        WorkTogether(fs.faults, ops0, ops1, fs.ops);
        if step.Stop? {
          return false;
        }
        cur := cur.(names := cur.names - {name});
        if step.Opened? {
          // Suspend this directory and descend.
          stack := stack + [cur] + [Frame(cur.src + [name], cur.dst + [name], step.names)];
          descended := true;
        }
      }
      if !descended {
        FrameDone(es0, fs.entries, stack, cur, src, dst);
      }
    }
    CopyKeepsOutside(es0, fs.entries, stack, src, dst);
    CopyComplete(es0, fs.entries, src, dst);
    return true;
  }
}
