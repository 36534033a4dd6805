// A move whose pattern selects a row outside the moved directory, and what that does to the
// sibling the row belongs to.
module FileCacheStrays {
  import opened Wrappers
  import opened StoragePaths
  import opened LikePattern
  import opened PlainTree
  import opened Sums
  import opened FileCacheSpec
  import opened FileCacheRefinement
  import opened FileCacheRewrites
  import opened FileCacheEtags

  // ---------- lengths and slashes ----------

  lemma {:induction false} UpdateBytes(s: string, j: nat, c: char)
    requires j < |s| && CharBytes(s[j]) == CharBytes(c)
    ensures ByteLen(s[j := c]) == ByteLen(s)
    decreases |s|
  {
    if j == 0 {
      assert s[j := c][1..] == s[1..];
    } else {
      UpdateBytes(s[1..], j - 1, c);
      assert s[j := c][1..] == s[1..][j - 1 := c];
    }
  }

  lemma {:induction false} RenderBytes(dir: Path, i: nat, seg: string)
    requires i < |dir| && ByteLen(seg) == ByteLen(dir[i])
    ensures ByteLen(Render(dir[i := seg])) == ByteLen(Render(dir))
    decreases |dir|
  {
    var other := dir[i := seg];
    if |dir| > 1 {
      ByteLenConcat(dir[0] + "/", Render(dir[1..]));
      ByteLenConcat(other[0] + "/", Render(other[1..]));
      ByteLenConcat(dir[0], "/");
      ByteLenConcat(other[0], "/");
      if i > 0 {
        RenderBytes(dir[1..], i - 1, seg);
        assert other[1..] == dir[1..][i - 1 := seg];
      } else {
        assert other[1..] == dir[1..];
      }
    }
  }

  function SlashCount(s: string): nat {
    if s == "" then 0 else (if s[0] == '/' then 1 else 0) + SlashCount(s[1..])
  }

  lemma {:induction false} SlashConcat(a: string, b: string)
    ensures SlashCount(a + b) == SlashCount(a) + SlashCount(b)
    decreases |a|
  {
    if a == "" {
      assert a + b == b;
    } else {
      assert (a + b)[0] == a[0] && (a + b)[1..] == a[1..] + b;
      SlashConcat(a[1..], b);
    }
  }

  lemma {:induction false} NoSlash(s: string)
    requires '/' !in s
    ensures SlashCount(s) == 0
    decreases |s|
  {
    if s != "" {
      NoSlash(s[1..]);
    }
  }

  lemma {:induction false} RenderSlashes(p: Path)
    requires LegalPath(p) && p != []
    ensures SlashCount(Render(p)) == |p| - 1
    decreases |p|
  {
    NoSlash(p[0]);
    if |p| > 1 {
      assert forall i :: 0 <= i < |p| - 1 ==> p[1..][i] == p[i + 1];
      RenderSlashes(p[1..]);
      SlashConcat(p[0] + "/", Render(p[1..]));
      SlashConcat(p[0], "/");
    }
  }

  // A slash of the pattern matches nothing but a slash.
  lemma {:induction false} LikeSlashes(fold: bool, pat: string, s: string)
    requires Like(fold, pat, s)
    ensures SlashCount(s) >= SlashCount(pat)
    decreases |pat|, |s|
  {
    if pat != "" {
      if pat[0] == '%' {
        if Like(fold, pat[1..], s) {
          LikeSlashes(fold, pat[1..], s);
        } else {
          LikeSlashes(fold, pat, s[1..]);
        }
      } else {
        LikeSlashes(fold, pat[1..], s[1..]);
      }
    }
  }

  // So a selected row lies at least one level deeper than the moved directory.
  lemma SelectedIsDeeper(fold: bool, from: Path, q: Path)
    requires LegalPath(from) && LegalPath(q) && from != [] && q != [] && LikeBelow(fold, from, q)
    ensures |q| > |from|
  {
    LikeSlashes(fold, Render(from) + "/" + "%", Render(q));
    assert Render(from) + "/" + "%" == Render(from) + "/%";
    SlashConcat(Render(from), "/%");
    assert "/%"[1..] == "%" && "%"[1..] == "";
    assert SlashCount("/%") == 1 + SlashCount("%") && SlashCount("%") == 0;
    RenderSlashes(from);
    RenderSlashes(q);
  }

  // ---------- the table ----------

  // The moved directory and a sibling whose name differs in one loose character, each with
  // the directories above it, and one file in the sibling.
  function Stray(from: Path, i: nat, j: nat): Path
    requires i < |from| && j < |from[i]|
  {
    Twin(from, i, j) + ["x"]
  }

  function StrayKeys(from: Path, p: Path): set<Path> {
    (set k | 1 <= k <= |from| :: from[..k]) + (set k | 1 <= k <= |p| :: p[..k])
  }

  function IdOf(from: Path, a: Path): nat {
    if a <= from then |a| else |from| + |a|
  }

  function StrayRow(from: Path, p: Path, a: Path): Row {
    Row(IdOf(from, a), if |a| <= 1 then None else Some(IdOf(from, Parent(a))), Basename(a), a != p, 0, Backend(0), 0)
  }

  function StrayTable(from: Path, p: Path): Cache {
    Cache(map a | a in StrayKeys(from, p) :: StrayRow(from, p, a), |from| + |p| + 1, 0)
  }

  // A top-level name neither of the two starts with.
  function Elsewhere(from: Path, p: Path): Path
    requires from != [] && p != []
  {
    [if from[0] != "x" && p[0] != "x" then "x" else if from[0] != "y" && p[0] != "y" then "y" else "z"]
  }

  lemma StrayKeyIs(from: Path, p: Path, a: Path)
    ensures a in StrayKeys(from, p) <==> a != [] && (a <= from || a <= p)
  {
    if a != [] && a <= from {
      assert a == from[..|a|];
    }
    if a != [] && a <= p {
      assert a == p[..|a|];
    }
  }

  lemma StrayInv(from: Path, p: Path)
    requires LegalPath(from) && LegalPath(p) && from != [] && p != []
    requires ByteLen(Render(from)) <= MAX_PATH_LEN && ByteLen(Render(p)) <= MAX_PATH_LEN
    ensures Inv(StrayTable(from, p))
  {
    var c := StrayTable(from, p);
    forall a | a in c.rows
      ensures ParentNamed(c.rows, a) && RowOk(c, a)
    {
      StrayRowOk(from, p, a);
    }
    forall a, b | a in c.rows && b in c.rows
      ensures OneRowPerId(c.rows, a, b)
    {
      StrayKeyIs(from, p, a);
      StrayKeyIs(from, p, b);
      assert c.rows[a].fileid == IdOf(from, a) && c.rows[b].fileid == IdOf(from, b);
      if IdOf(from, a) == IdOf(from, b) {
        SameLengthSame(from, p, a, b);
      }
    }
  }

  lemma StrayRowOk(from: Path, p: Path, a: Path)
    requires LegalPath(from) && LegalPath(p) && from != [] && p != [] && a in StrayTable(from, p).rows
    requires ByteLen(Render(from)) <= MAX_PATH_LEN && ByteLen(Render(p)) <= MAX_PATH_LEN
    ensures ParentNamed(StrayTable(from, p).rows, a) && RowOk(StrayTable(from, p), a)
  {
    StrayKeyIs(from, p, a);
    if |a| > 1 {
      StrayKeyIs(from, p, Parent(a));
      assert Parent(a) <= a;
    }
    if a <= from {
      PrefixStorable(a, from);
    } else {
      PrefixStorable(a, p);
    }
  }

  lemma SameLengthSame(from: Path, p: Path, a: Path, b: Path)
    requires (a <= from || a <= p) && (b <= from || b <= p) && IdOf(from, a) == IdOf(from, b) && a != [] && b != []
    ensures a == b
  {
    if a <= from && b <= from {
      assert a == from[..|a|] && b == from[..|b|];
    } else if !(a <= from) && !(b <= from) {
      assert a == p[..|a|] && b == p[..|b|];
    }
  }

  lemma PrefixStorable(a: Path, p: Path)
    requires LegalPath(p) && ByteLen(Render(p)) <= MAX_PATH_LEN && a <= p && a != []
    ensures Storable(a)
  {
    if a != p {
      var rest := p[|a|..];
      assert p == a + rest;
      RenderAppend(a, rest);
      ByteLenConcat(Render(a) + "/", Render(rest));
      ByteLenConcat(Render(a), "/");
    }
  }

  // ---------- the move ----------

  lemma TwinStorable(from: Path, i: nat, j: nat, fold: bool)
    requires LegalPath(from) && Loose(fold, from, i, j) && ByteLen(Render(from)) + 2 <= MAX_PATH_LEN
    ensures var p := Stray(from, i, j);
            LegalPath(p) && ByteLen(Render(p)) <= MAX_PATH_LEN && !(from < p) && !(p <= from) && !(Parent(p) <= from)
    ensures Render(Stray(from, i, j)) == (Render(Twin(from, i, j)) + "/") + "x"
    ensures ByteLen(Render(Twin(from, i, j))) == ByteLen(Render(from))
  {
    var c, twin := from[i][j], Twin(from, i, j);
    LooseSelectsElsewhere(fold, from, i, j);
    UpdateBytes(from[i], j, Impostor(c));
    RenderBytes(from, i, from[i][j := Impostor(c)]);
    RenderAppend(twin, ["x"]);
    ByteLenConcat(Render(twin) + "/", "x");
    ByteLenConcat(Render(twin), "/");
    assert Parent(twin + ["x"]) == twin && |twin| == |from|;
  }

  lemma ElsewhereApart(from: Path, p: Path, a: Path)
    requires from != [] && p != [] && a != [] && (a <= from || a <= p)
    ensures var to := Elsewhere(from, p);
              a[0] != to[0] && !(to <= a) && Storable(to) && !(from <= to) && Parent(to) == []
    ensures Storable(Elsewhere(from, p) + ["x"])
  {
    var to := Elsewhere(from, p);
    assert (to + ["x"])[1..] == ["x"];
    assert Render(to + ["x"]) == to[0] + "/" + "x";
    ByteLenConcat(to[0] + "/", "x");
    ByteLenConcat(to[0], "/");
    assert to[0] == "x" || to[0] == "y" || to[0] == "z";
    assert ByteLen("x") == 1 && ByteLen("y") == 1 && ByteLen("z") == 1 && ByteLen("/") == 1;
    assert from[0] != to[0];
  }

  // Just the stray file is selected, and its new path is the one a descendant would get.
  lemma StraySelected(fold: bool, from: Path, i: nat, j: nat)
    requires LegalPath(from) && Loose(fold, from, i, j) && ByteLen(Render(from)) + 2 <= MAX_PATH_LEN
    ensures
      var p := Stray(from, i, j);
      var to := Elsewhere(from, p);
      && from in StrayTable(from, p).rows
      && Rewrites(fold, LeafMoved(StrayTable(from, p).rows, from, to, None), from, to) == map[p := Ok(to + ["x"])]
  {
    var p := Stray(from, i, j);
    var to := Elsewhere(from, p);
    StrayKeyIs(from, p, from);
    StrayNewPath(fold, from, i, j);
    var rows := StrayTable(from, p).rows;
    assert rows.Keys == StrayKeys(from, p);
    StrayAlone(fold, from, i, j, LeafMoved(rows, from, to, None));
    OneRewrite(fold, LeafMoved(rows, from, to, None), from, to, p, to + ["x"]);
  }

  lemma OneRewrite(fold: bool, rows: Rows, from: Path, to: Path, p: Path, t: Path)
    requires Selected(fold, rows, from) == {p} && NewPath(from, to, p) == Ok(t)
    ensures Rewrites(fold, rows, from, to) == map[p := Ok(t)]
  {
  }

  lemma StrayAlone(fold: bool, from: Path, i: nat, j: nat, rows1: Rows)
    requires LegalPath(from) && Loose(fold, from, i, j) && ByteLen(Render(from)) + 2 <= MAX_PATH_LEN
    requires var p := Stray(from, i, j); rows1.Keys == (StrayKeys(from, p) - {from}) + {Elsewhere(from, p)}
    ensures Selected(fold, rows1, from) == {Stray(from, i, j)}
  {
    var p := Stray(from, i, j);
    TwinStorable(from, i, j, fold);
    LooseSelectsElsewhere(fold, from, i, j);
    StrayKeyIs(from, p, p);
    forall q | q in rows1
      ensures LikeBelow(fold, from, q) <==> q == p
    {
      StrayKeyIs(from, p, q);
      OnlyStray(fold, from, p, q);
    }
  }

  lemma OnlyStray(fold: bool, from: Path, p: Path, q: Path)
    requires LegalPath(from) && LegalPath(p) && from != [] && |p| == |from| + 1 && LikeBelow(fold, from, p)
    requires ByteLen(Render(from)) <= MAX_PATH_LEN && ByteLen(Render(p)) <= MAX_PATH_LEN
    requires q == Elsewhere(from, p) || (q != [] && (q <= from || q <= p))
    ensures LikeBelow(fold, from, q) <==> q == p
  {
    if q != p && LikeBelow(fold, from, q) {
      ElsewhereApart(from, p, p);
      if q <= from {
        PrefixStorable(q, from);
      } else if q <= p {
        PrefixStorable(q, p);
      }
      SelectedIsDeeper(fold, from, q);
      ProperPrefix(q, p);
    }
  }

  lemma StrayNewPath(fold: bool, from: Path, i: nat, j: nat)
    requires LegalPath(from) && Loose(fold, from, i, j) && ByteLen(Render(from)) + 2 <= MAX_PATH_LEN
    ensures var p := Stray(from, i, j); var to := Elsewhere(from, p); NewPath(from, to, p) == Ok(to + ["x"])
  {
    var p, twin := Stray(from, i, j), Twin(from, i, j);
    TwinStorable(from, i, j, fold);
    ElsewhereApart(from, p, p);
    ByteLenConcat(Render(twin), "/");
    ByteLenConcat(Render(from), "/");
    TextMoves(from, Elsewhere(from, p), p, Render(twin) + "/");
  }

  // A row whose text is as many bytes as the prefix, and "x".
  lemma TextMoves(from: Path, to: Path, p: Path, head: string)
    requires from != [] && to != [] && Storable(to + ["x"])
    requires Render(p) == head + "x" && ByteLen(head) == ByteLen(DescendantPrefix(from))
    ensures NewPath(from, to, p) == Ok(to + ["x"])
  {
    ByteLenConcat(head, "x");
    CutPrefix(head, "x");
    RenderAppend(to, ["x"]);
    assert Render(to + ["x"]) == Render(to + ["x"]) + Slashes(0);
    ParseComplete(Render(to + ["x"]), to + ["x"], 0);
  }

  // Every outcome of the move: it succeeds, and takes the sibling's file with it, while the
  // sibling keeps its id and its etag.
  lemma WildcardMoveTakesSibling(fold: bool, from: Path, i: nat, j: nat, now: int, c': Cache, r: Outcome<Error>)
    requires LegalPath(from) && Loose(fold, from, i, j) && ByteLen(Render(from)) + 2 <= MAX_PATH_LEN
    requires var p := Stray(from, i, j); MoveOutcome(fold, StrayTable(from, p), from, Elsewhere(from, p), now, c', r)
    ensures
      var p, twin := Stray(from, i, j), Twin(from, i, j);
      var c, to := StrayTable(from, p), Elsewhere(from, p);
      && Inv(c) && r == Done
      && twin in c.rows && twin in c'.rows && c'.rows[twin] == c.rows[twin] && c.rows[twin].isDir
      && p in c.rows && p !in c'.rows && to + ["x"] in c'.rows && c'.rows[to + ["x"]] == c.rows[p]
  {
    var p := Stray(from, i, j);
    var c, to := StrayTable(from, p), Elsewhere(from, p);
    StrayFacts(fold, from, i, j);
    StraySelected(fold, from, i, j);
    OneStrayMoves(fold, c, from, to, now, p, Twin(from, i, j), c', r);
  }

  // A table in which the pattern selects one row, and that row is free to go.
  ghost predicate OneStray(fold: bool, c: Cache, from: Path, to: Path, p: Path, twin: Path) {
    && ParentsNamed(c.rows) && from in c.rows && from != [] && p in c.rows && twin in c.rows
    && p != from && twin != from && twin != p && !(p <= from) && !(twin < from)
    && |to| == 1 && to !in c.rows && to + ["x"] !in c.rows && [] !in c.rows && to != p && !(from <= to) && !(to <= from)
    && Rewrites(fold, LeafMoved(c.rows, from, to, None), from, to) == map[p := Ok(to + ["x"])]
  }

  lemma OneStrayMoves(fold: bool, c: Cache, from: Path, to: Path, now: int, p: Path, twin: Path, c': Cache,
                      r: Outcome<Error>)
    requires OneStray(fold, c, from, to, p, twin) && MoveOutcome(fold, c, from, to, now, c', r)
    ensures r == Done && twin in c'.rows && c'.rows[twin] == c.rows[twin]
    ensures p !in c'.rows && to + ["x"] in c'.rows && c'.rows[to + ["x"]] == c.rows[p]
  {
    var rows1, m := LeafMoved(c.rows, from, to, None), map[p := Ok(to + ["x"])];
    assert ResolveParent(c.rows, to) == Ok(None) && FreeTargets(rows1, m) && AllFit(m);
    var rows2, r2 :| Rewritten(rows1, m, rows2, r2) &&
                     if r2.Done? then Rewalked(c, rows2, from, to, now, c', r) else c' == c && r == r2;
    FreeRewriting(rows1, m, rows2, r2);
    StrayMoved(c.rows, rows1, rows2, m, from, to, p, twin);
    var c2, size := c.(rows := rows2), c.rows[from].size;
    assert !(to + ["x"] < from) && !(to + ["x"] < to) && !(twin < to);
    ShiftedKeys(c2, from, to, size, now);
    ShiftedRow(c2, from, to, size, now, twin);
    ShiftedRow(c2, from, to, size, now, to + ["x"]);
  }

  lemma OneStrayOutcome(fold: bool, c: Cache, from: Path, to: Path, now: int, p: Path, twin: Path) returns (c': Cache)
    requires OneStray(fold, c, from, to, p, twin)
    ensures MoveOutcome(fold, c, from, to, now, c', Done)
  {
    var rows1, m: NewPaths := LeafMoved(c.rows, from, to, None), map[p := Ok(to + ["x"])];
    var rows2 := (rows1 - {p})[to + ["x"] := rows1[p]];
    assert InOrder(rows1, m, [p]) == (rows2, Done) by { assert [p][..0] == []; }
    assert Visits(m, [p], true) && Rewritten(rows1, m, rows2, Done);
    FreeRewriting(rows1, m, rows2, Done);
    StrayMoved(c.rows, rows1, rows2, m, from, to, p, twin);
    c' := Shifted(c.(rows := rows2), from, to, c.rows[from].size, now);
    assert Rewalked(c, rows2, from, to, now, c', Done);
  }

  lemma StrayFacts(fold: bool, from: Path, i: nat, j: nat)
    requires LegalPath(from) && Loose(fold, from, i, j) && ByteLen(Render(from)) + 2 <= MAX_PATH_LEN
    ensures
      var p, twin := Stray(from, i, j), Twin(from, i, j);
      var c, to := StrayTable(from, p), Elsewhere(from, p);
      && Inv(c) && from in c.rows && p in c.rows && twin in c.rows && c.rows[twin].isDir
      && to !in c.rows && to + ["x"] !in c.rows && [] !in c.rows && to != p && Parent(to) == [] && Storable(to) &&
         !(from <= to) && !(to <= from)
      && p != from && twin != from && twin != p && !(p <= from) && !(twin < from)
  {
    var p, twin := Stray(from, i, j), Twin(from, i, j);
    var c, to := StrayTable(from, p), Elsewhere(from, p);
    TwinStorable(from, i, j, fold);
    StrayInv(from, p);
    StrayKeyIs(from, p, from);
    StrayKeyIs(from, p, p);
    StrayKeyIs(from, p, twin);
    StrayKeyIs(from, p, to);
    StrayKeyIs(from, p, to + ["x"]);
    StrayKeyIs(from, p, []);
    ElsewhereApart(from, p, p);
    ElsewhereApart(from, p, from);
    assert (to + ["x"])[0] == to[0];
  }

  lemma StrayMoved(rows: Rows, rows1: Rows, rows2: Rows, m: NewPaths, from: Path, to: Path, p: Path, twin: Path)
    requires ParentsNamed(rows) && from in rows && from != [] && p in rows && twin in rows && p != from &&
             twin != from && twin != p
    requires to !in rows && |to| == 1 && to != p && to + ["x"] !in rows && !(p <= from) && m == map[p := Ok(to + ["x"])]
    requires rows1 == LeafMoved(rows, from, to, None) && PartMoved(rows1, rows2, m, m.Keys)
    ensures ShiftMissing(rows2, from, to) == None
    ensures twin in rows2 && rows2[twin] == rows[twin]
    ensures p !in rows2 && to + ["x"] in rows2 && rows2[to + ["x"]] == rows[p]
  {
    forall a | a in rows1 && a != p
      ensures a in rows2 && rows2[a] == rows1[a]
    {
      assert PlaceRight(rows1, rows2, m, m.Keys, a);
    }
    forall a | a < from && a != []
      ensures a in rows2
    {
      AncestorsPresent(rows, from, a);
    }
    WalkFindsAll(rows2, from);
    WalkFindsAll(rows2, to);
    assert PlaceRight(rows1, rows2, m, m.Keys, p);
    assert Landed(rows1, rows2, m, p);
  }

  // ---------- what it means for sizes, keys and parents ----------

  // Every outcome of the move is the plain tree's: refused by both, without effect, or taken
  // by both with related results; and the invariants hold.
  ghost predicate MovesAlike(fold: bool, c: Cache, t: Tree, from: StoragePath, to: StoragePath, now: int) {
    forall c', r {:trigger MoveOutcome(fold, c, from, to, now, c', r)} ::
      MoveOutcome(fold, c, from, to, now, c', r) ==> Inv(c') && SameVerdict(c, t, Moved(from, to, now), c', r)
  }

  ghost predicate SameVerdict(c: Cache, t: Tree, e: Event, c': Cache, r: Outcome<Error>) {
    match TreeStep(t, e)
    case None => r.Failed? && c' == c
    case Some(t') => r.Done? && Refines(c'.rows, t') && Shaped(t')
  }

  // For a directory of that name they stay right in every table, for every target, exactly
  // if the name is literal.
  lemma RefinementSurvivesIff(fold: bool, from: StoragePath)
    requires from != [] && ByteLen(Render(from)) + 2 <= MAX_PATH_LEN
    ensures (forall c, t, to: StoragePath, now ::
              Inv(c) && Refines(c.rows, t) && Shaped(t) && to != [] && !(from <= to) && ParentIsDir(t, to) ==>
                MovesAlike(fold, c, t, from, to, now))
            <==> LiteralPath(fold, from)
  {
    if LiteralPath(fold, from) {
      forall c, t, to: StoragePath, now |
        Inv(c) && Refines(c.rows, t) && Shaped(t) && to != [] && !(from <= to) && ParentIsDir(t, to)
        ensures MovesAlike(fold, c, t, from, to, now)
      {
        LiteralRefines(fold, c, t, from, to, now);
      }
    } else {
      var i, j := SomeLoose(fold, from);
      StrayDiverges(fold, from, i, j);
    }
  }

  lemma LiteralRefines(fold: bool, c: Cache, t: Tree, from: StoragePath, to: StoragePath, now: int)
    requires Inv(c) && Refines(c.rows, t) && Shaped(t) && from != [] && to != [] && !(from <= to)
    requires ParentIsDir(t, to) && LiteralPath(fold, from)
    ensures MovesAlike(fold, c, t, from, to, now)
  {
    LiteralIsClean(fold, c, from, to);
    StepRefines(fold, c, t, Moved(from, to, now));
    forall c', r | MoveOutcome(fold, c, from, to, now, c', r)
      ensures Inv(c') && SameVerdict(c, t, Moved(from, to, now), c', r)
    {
      CleanOutcome(fold, c, from, to, now, c', r);
    }
  }

  // The plain tree of the stray table: directories, and one empty file.
  function StrayTree(from: Path, p: Path): Tree {
    map a | a in StrayKeys(from, p) :: if a == p then File(0) else Dir
  }

  lemma StrayTreeRefined(from: Path, p: Path)
    requires p != [] && !(p <= from)
    ensures Refines(StrayTable(from, p).rows, StrayTree(from, p)) && Shaped(StrayTree(from, p))
  {
    var rows, t := StrayTable(from, p).rows, StrayTree(from, p);
    assert rows.Keys == StrayKeys(from, p) == t.Keys;
    forall a | a in rows
      ensures RowRight(rows, t, a)
    {
      NoBytes(t, a);
    }
    forall a | a in t
      ensures ParentIsDir(t, a)
    {
      StrayParent(from, p, a);
    }
  }

  lemma NoBytes(t: Tree, d: Path)
    requires forall a :: a in t ==> Own(t[a]) == 0
    ensures Total(t, d) == 0
  {
    SumZero(SizesUnder(t, d));
  }

  lemma StrayParent(from: Path, p: Path, a: Path)
    requires a in StrayKeys(from, p) && !(p <= from)
    ensures a != [] && Parent(a) != p
  {
    StrayKeyIs(from, p, a);
    assert Parent(a) < a;
    assert a <= p ==> |a| <= |p|;
  }

  lemma StrayDiverges(fold: bool, from: StoragePath, i: nat, j: nat)
    requires Loose(fold, from, i, j) && ByteLen(Render(from)) + 2 <= MAX_PATH_LEN
    ensures
      var p := Stray(from, i, j);
      var c, t, to := StrayTable(from, p), StrayTree(from, p), Elsewhere(from, p);
      && Inv(c) && Refines(c.rows, t) && Shaped(t) && Storable(to) && to != [] && !(from <= to) && ParentIsDir(t, to)
      && !MovesAlike(fold, c, t, from, to, 0)
  {
    var p := Stray(from, i, j);
    var c, to := StrayTable(from, p), Elsewhere(from, p);
    StrayFacts(fold, from, i, j);
    TwinStorable(from, i, j, fold);
    StrayTreeRefined(from, p);
    StrayKeyIs(from, p, []);
    var c' := StrayOutcome(fold, from, i, j);
    WildcardMoveTakesSibling(fold, from, i, j, 0, c', Done);
    StrayStays(from, p, to);
    Diverges(fold, c, StrayTree(from, p), from, to, 0, c', p);
  }

  lemma Diverges(fold: bool, c: Cache, t: Tree, from: StoragePath, to: StoragePath, now: int, c': Cache, p: Path)
    requires MoveOutcome(fold, c, from, to, now, c', Done) && p in Rename(t, from, to) && p !in c'.rows
    ensures !MovesAlike(fold, c, t, from, to, now)
  {
    if MovesAlike(fold, c, t, from, to, now) {
      VerdictKeys(c, t, from, to, now, c');
    }
  }

  lemma VerdictKeys(c: Cache, t: Tree, from: StoragePath, to: StoragePath, now: int, c': Cache)
    requires SameVerdict(c, t, Moved(from, to, now), c', Done)
    ensures c'.rows.Keys == Rename(t, from, to).Keys
  {
    assert TreeStep(t, Moved(from, to, now)) == Some(Rename(t, from, to));
  }

  // In the plain tree the stray file stays where it is.
  lemma StrayStays(from: Path, p: Path, to: Path)
    requires from != [] && p != [] && to == Elsewhere(from, p) && !(from <= p)
    ensures p in Rename(StrayTree(from, p), from, to)
  {
    var t := StrayTree(from, p);
    assert t.Keys == StrayKeys(from, p);
    forall a | a in t
      ensures !(to <= a)
    {
      StrayKeyIs(from, p, a);
      ElsewhereApart(from, p, a);
    }
    StrayKeyIs(from, p, p);
    RenameLookup(t, from, to);
    assert Subst(from, to, p) == p;
  }

  // ---------- what it means for etags ----------

  // After every successful move equal etags mean equal subtrees.
  ghost predicate EtagsSurvive(fold: bool, c: Cache, from: Path, to: Path, now: int) {
    forall c', r {:trigger MoveOutcome(fold, c, from, to, now, c', r)} ::
      MoveOutcome(fold, c, from, to, now, c', r) && r.Done? ==> Faithful(c, c')
  }

  // For a directory of that name they do so in every table, for every target, exactly if
  // the name is literal for the database's LIKE.
  lemma EtagsSurviveIff(fold: bool, from: Path)
    requires LegalPath(from) && from != [] && ByteLen(Render(from)) + 2 <= MAX_PATH_LEN
    ensures (forall c, to, now :: Inv(c) && Storable(to) && to != [] && !(from <= to) ==>
             EtagsSurvive(fold, c, from, to, now))
            <==> LiteralPath(fold, from)
  {
    if LiteralPath(fold, from) {
      forall c, to, now | Inv(c) && Storable(to) && to != [] && !(from <= to)
        ensures EtagsSurvive(fold, c, from, to, now)
      {
        LiteralSurvives(fold, c, from, to, now);
      }
    } else {
      var i, j := SomeLoose(fold, from);
      StrayBreaks(fold, from, i, j);
    }
  }

  lemma LiteralIsClean(fold: bool, c: Cache, from: Path, to: Path)
    requires Inv(c) && LegalPath(from) && LegalPath(to) && from != [] && to != [] && !(from <= to) &&
             LiteralPath(fold, from)
    ensures MovesCleanly(fold, c.rows, from, to)
  {
    forall p | p in c.rows || p == to
      ensures LikeBelow(fold, from, p) <==> from < p
    {
      assert p in c.rows ==> RowOk(c, p);
      LiteralSelectsBelow(fold, from, p);
    }
  }

  lemma LiteralSurvives(fold: bool, c: Cache, from: Path, to: StoragePath, now: int)
    requires Inv(c) && LegalPath(from) && from != [] && to != [] && !(from <= to) && LiteralPath(fold, from)
    ensures EtagsSurvive(fold, c, from, to, now)
  {
    LiteralIsClean(fold, c, from, to);
    forall c', r | MoveOutcome(fold, c, from, to, now, c', r) && r.Done?
      ensures Faithful(c, c')
    {
      CleanOutcome(fold, c, from, to, now, c', r);
      FaithfulAtFirst(c);
      forall d, e | SameEtag(c, c', d, e)
        ensures SameSubtree(c.rows, d, c'.rows, e)
      {
        MoveExplained(c, from, to, now, e);
        StillSame(c, c, c', d, e);
      }
    }
  }

  lemma StrayBreaks(fold: bool, from: Path, i: nat, j: nat)
    requires LegalPath(from) && Loose(fold, from, i, j) && ByteLen(Render(from)) + 2 <= MAX_PATH_LEN
    ensures
      var p := Stray(from, i, j);
      var c, to := StrayTable(from, p), Elsewhere(from, p);
      Inv(c) && Storable(to) && to != [] && !(from <= to) && !EtagsSurvive(fold, c, from, to, 0)
  {
    var p, twin := Stray(from, i, j), Twin(from, i, j);
    var c, to := StrayTable(from, p), Elsewhere(from, p);
    StrayFacts(fold, from, i, j);
    var c' := StrayOutcome(fold, from, i, j);
    WildcardMoveTakesSibling(fold, from, i, j, 0, c', Done);
    assert SameEtag(c, c', twin, twin);
    assert !SameAt(c.rows, twin, c'.rows, twin, ["x"]);
  }

  // There is such an outcome.
  lemma StrayOutcome(fold: bool, from: Path, i: nat, j: nat) returns (c': Cache)
    requires LegalPath(from) && Loose(fold, from, i, j) && ByteLen(Render(from)) + 2 <= MAX_PATH_LEN
    ensures var p := Stray(from, i, j); MoveOutcome(fold, StrayTable(from, p), from, Elsewhere(from, p), 0, c', Done)
  {
    var p := Stray(from, i, j);
    StrayFacts(fold, from, i, j);
    StraySelected(fold, from, i, j);
    c' := OneStrayOutcome(fold, StrayTable(from, p), from, Elsewhere(from, p), 0, p, Twin(from, i, j));
  }
}
