// The row-by-row rewriting of a move: why it cannot collide, when it is the plain
// substitution, and what it does to a sibling directory its pattern selects by mistake.
module FileCacheRewrites {
  import opened Wrappers
  import opened StoragePaths
  import opened LikePattern
  import opened PlainTree
  import opened FileCacheSpec
  import opened FileCacheRefinement

  // ---------- one row ----------

  lemma DescendantText(from: Path, to: Path, q: Path)
    requires from < q && from != [] && to != []
    ensures var rest := Render(q[|from|..]);
            Render(q) == DescendantPrefix(from) + rest && Render(Subst(from, to, q)) == Render(to) + "/" + rest
  {
    var rest := q[|from|..];
    assert from + rest == q;
    RenderAppend(from, rest);
    RenderAppend(to, rest);
  }

  // A row below the moved directory gets the substituted path, exactly when that fits.
  lemma DescendantParses(from: Path, to: Path, q: Path)
    requires from < q && from != [] && to != [] && LegalPath(q) && LegalPath(to)
    ensures NewPath(from, to, q) ==
            if ByteLen(Render(Subst(from, to, q))) <= MAX_PATH_LEN then Ok(Subst(from, to, q)) else Err(Invalid)
  {
    DescendantText(from, to, q);
    LegalSubst(from, to, q);
    var rest := Render(q[|from|..]);
    var p := Subst(from, to, q);
    ByteLenConcat(DescendantPrefix(from), rest);
    CutPrefix(DescendantPrefix(from), rest);
    if ByteLen(Render(p)) <= MAX_PATH_LEN {
      assert Render(p) == Render(p) + Slashes(0);
      ParseComplete(Render(p), p, 0);
    }
  }

  // At any point of the loop, in any order: the new path of a row still to be rewritten is
  // its own or held by no other row.
  lemma RewriteNext(rows0: Rows, rows: Rows, m: NewPaths, done: set<Path>, q: Path)
    requires FreeTargets(rows0, m) && PartMoved(rows0, rows, m, done)
    requires done <= m.Keys <= rows0.Keys && q in m && q !in done && m[q].Ok?
    ensures
      var p := m[q].value;
      && q in rows && (p == q || p !in rows)
      && PartMoved(rows0, if p == q then rows else (rows - {q})[p := rows[q]], m, done + {q})
  {
    var p := m[q].value;
    assert PlaceRight(rows0, rows, m, done, p) && PlaceRight(rows0, rows, m, done, q);
    var rows' := if p == q then rows else (rows - {q})[p := rows[q]];
    assert !ComesFrom(m, done, p);
    forall y | y in done
      ensures Landed(rows0, rows, m, y) && m[y].value != q
    {
    }
    forall x
      ensures PlaceRight(rows0, rows', m, done + {q}, x)
    {
      assert PlaceRight(rows0, rows, m, done, x);
      OneMoreTarget(m, done, q, x);
    }
    forall y | y in done + {q}
      ensures Landed(rows0, rows', m, y)
    {
      assert y in done ==> Landed(rows0, rows, m, y);
    }
  }

  lemma OneMoreTarget(m: NewPaths, done: set<Path>, q: Path, x: Path)
    requires q in m && m[q].Ok?
    ensures ComesFrom(m, done + {q}, x) <==> ComesFrom(m, done, x) || x == m[q].value
  {
    if x == m[q].value {
      assert q in done + {q} && m[q] == Ok(x);
    }
    if y :| y in done && y in m && m[y] == Ok(x) {
      assert y in done + {q};
    }
  }

  lemma OneMoreVisit(m: NewPaths, order: seq<Path>, q: Path)
    requires Visits(m, order, false) && q in m && q !in order
    ensures Visits(m, order + [q], false) && (order + [q])[..|order|] == order
  {
  }

  lemma {:induction false} OrderMoves(rows0: Rows, m: NewPaths, order: seq<Path>)
    requires FreeTargets(rows0, m) && m.Keys <= rows0.Keys && Visits(m, order, false)
    ensures
      var (rows, r) := InOrder(rows0, m, order);
      if r.Done? then PartMoved(rows0, rows, m, set q | q in order) else exists q :: q in m && m[q] == Err(r.error)
    decreases |order|
  {
    if order == [] {
      assert PartMoved(rows0, rows0, m, {});
    } else {
      var front, q := order[..|order| - 1], order[|order| - 1];
      var done := set x | x in front;
      OrderMoves(rows0, m, front);
      var (rows, r) := InOrder(rows0, m, front);
      assert (set x | x in order) == done + {q};
      if r.Done? {
        assert PlaceRight(rows0, rows, m, done, q);
        if m[q].Ok? {
          RewriteNext(rows0, rows, m, done, q);
        }
      }
    }
  }

  // When no new path is another row's, the outcome does not depend on the order.
  lemma FreeRewriting(rows0: Rows, m: NewPaths, rows: Rows, r: Outcome<Error>)
    requires FreeTargets(rows0, m) && m.Keys <= rows0.Keys && Rewritten(rows0, m, rows, r)
    ensures r.Done? <==> AllFit(m)
    ensures if r.Done? then PartMoved(rows0, rows, m, m.Keys) else exists q :: q in m && m[q] == Err(r.error)
  {
    var order :| Visits(m, order, r.Done?) && InOrder(rows0, m, order) == (rows, r);
    OrderMoves(rows0, m, order);
    if r.Done? {
      assert (set q | q in order) == m.Keys;
      forall q | q in m
        ensures m[q].Ok?
      {
        assert Landed(rows0, rows, m, q);
      }
    }
  }

  // ---------- clean moves ----------

  // What a path comes to, by its length.
  function Fitting(p: Path): Result<Path, Error> {
    if ByteLen(Render(p)) <= MAX_PATH_LEN then Ok(p) else Err(Invalid)
  }

  // Only the rows below `from` are selected, each new path is free, and all fit exactly if
  // none gets too long.
  lemma CleanSelection(fold: bool, c: Cache, rows1: Rows, from: Path, to: StoragePath, pid: Option<nat>)
    requires Inv(c) && MovesCleanly(fold, c.rows, from, to) && from in c.rows && to !in c.rows &&
             rows1 == LeafMoved(c.rows, from, to, pid)
    ensures from != []
    ensures
      var m := Rewrites(fold, rows1, from, to);
      && (forall q :: q in m <==> q in c.rows && from < q)
      && (forall q :: q in m ==> m[q] == Fitting(Subst(from, to, q)))
      && FreeTargets(rows1, m) && (AllFit(m) <==> !Overlong(c.rows, from, to))
  {
    NothingBelowVacant(c.rows, to);
    var m := Rewrites(fold, rows1, from, to);
    forall q
      ensures q in m <==> q in c.rows && from < q
    {
      assert q in c.rows || q == to ==> (LikeBelow(fold, from, q) <==> from < q);
    }
    forall q | q in m
      ensures m[q] == Fitting(Subst(from, to, q))
      ensures to < Subst(from, to, q) && Subst(to, from, Subst(from, to, q)) == q
    {
      assert RowOk(c, q);
      DescendantParses(from, to, q);
      SubstFacts(from, to, q);
    }
  }

  // The rewriting a clean move makes, when everything fits.
  ghost predicate Substitutes(rows: Rows, m: NewPaths, from: Path, to: Path) {
    && (forall q :: q in m <==> q in rows && from < q)
    && (forall q :: q in m ==> m[q] == Ok(Subst(from, to, q)))
  }

  // The leaf and its descendants: together the plain substitution.
  lemma RewriteDone(rows0: Rows, rows1: Rows, rows: Rows, m: NewPaths, from: Path, to: Path, pid: Option<nat>)
    requires ParentsNamed(rows0) && from in rows0 && to !in rows0 && to != [] && !(from <= to) &&
             rows1 == LeafMoved(rows0, from, to, pid)
    requires Substitutes(rows0, m, from, to) && PartMoved(rows1, rows, m, m.Keys)
    ensures rows == Relocated(rows0, from, to, pid)
  {
    NothingBelowVacant(rows0, to);
    var rows' := Relocated(rows0, from, to, pid);
    forall p
      ensures p in rows ==> p in rows' && rows[p] == rows'[p]
    {
      if p in rows {
        RewrittenKept(rows0, rows1, rows, m, from, to, pid, p);
      }
    }
    forall p | p in rows'
      ensures p in rows
    {
      Origin(rows0, from, to, pid, p);
      RewrittenArrives(rows0, rows1, rows, m, from, to, p);
    }
  }

  lemma RewrittenArrives(rows0: Rows, rows1: Rows, rows: Rows, m: NewPaths, from: Path, to: Path, p: Path)
    requires from in rows0 && rows1.Keys == rows0.Keys - {from} + {to} && !(from <= to)
    requires Substitutes(rows0, m, from, to) && PartMoved(rows1, rows, m, m.Keys)
    requires Subst(to, from, p) in rows0 && Subst(from, to, Subst(to, from, p)) == p
    ensures p in rows
  {
    var q := Subst(to, from, p);
    SubstFacts(from, to, q);
    assert PlaceRight(rows1, rows, m, m.Keys, p);
    if q in m {
      assert Landed(rows1, rows, m, q);
    } else if q == from {
      assert p == to + from[|from|..] && p == to;
      assert p in rows1 && p !in m;
    } else {
      if from <= q {
        ProperPrefix(from, q);
      }
      assert p in rows1 && p !in m;
    }
  }

  lemma RewrittenKept(rows0: Rows, rows1: Rows, rows: Rows, m: NewPaths, from: Path, to: Path, pid: Option<nat>,
                      p: Path)
    requires Vacant(rows0.Keys, to) && from in rows0 && !(from <= to) && p in rows &&
             rows1 == LeafMoved(rows0, from, to, pid)
    requires Substitutes(rows0, m, from, to) && PartMoved(rows1, rows, m, m.Keys)
    ensures p in Relocated(rows0, from, to, pid) && rows[p] == Relocated(rows0, from, to, pid)[p]
  {
    assert PlaceRight(rows1, rows, m, m.Keys, p);
    if ComesFrom(m, m.Keys, p) {
      var q :| q in m && m[q] == Ok(p);
      assert Landed(rows1, rows, m, q);
      SubstFacts(from, to, q);
      Arrives(rows0, from, to, pid, q);
    } else if p == to {
      Arrives(rows0, from, to, pid, from);
      assert Subst(from, to, from) == to;
    } else {
      if from <= p {
        ProperPrefix(from, p);
      }
      Stays(rows0, from, to, pid, p);
    }
  }

  // After the move both chains are complete, so neither walk can fail.
  lemma MovedWalks(rows: Rows, from: Path, to: Path, pid: Option<nat>)
    requires ParentsNamed(rows) && from in rows && to !in rows && to != [] && !(from <= to)
    requires ResolveParent(rows, to) == Ok(pid)
    ensures ShiftMissing(Relocated(rows, from, to, pid), from, to) == None
  {
    NothingBelowVacant(rows, to);
    var rows' := Relocated(rows, from, to, pid);
    forall a | a < from && a != []
      ensures a in rows'
    {
      AncestorsPresent(rows, from, a);
      Stays(rows, from, to, pid, a);
    }
    WalkFindsAll(rows', from);
    forall a | a < to && a != []
      ensures a in rows'
    {
      ResolvedAncestor(rows, to, a);
      assert !(from <= a);
      Stays(rows, from, to, pid, a);
    }
    WalkFindsAll(rows', to);
  }

  // Whatever the order, a clean move's rewriting ends with the substitution, or with a path
  // that is too long.
  lemma CleanRewriting(fold: bool, c: Cache, from: Path, to: StoragePath, pid: Option<nat>, rows2: Rows,
                       r: Outcome<Error>)
    requires Inv(c) && MovesCleanly(fold, c.rows, from, to) && from in c.rows && to !in c.rows
    requires var rows1 := LeafMoved(c.rows, from, to, pid); Rewritten(rows1, Rewrites(fold, rows1, from, to), rows2, r)
    ensures if Overlong(c.rows, from, to) then r == Failed(Invalid)
            else r == Done && rows2 == Relocated(c.rows, from, to, pid)
  {
    var rows1 := LeafMoved(c.rows, from, to, pid);
    var m := Rewrites(fold, rows1, from, to);
    CleanSelection(fold, c, rows1, from, to, pid);
    FreeRewriting(rows1, m, rows2, r);
    if AllFit(m) {
      AllSubstituted(c.rows, m, from, to);
      RewriteDone(c.rows, rows1, rows2, m, from, to, pid);
    }
  }

  // A clean move has one outcome, and it is the closed form.
  lemma CleanOutcome(fold: bool, c: Cache, from: Path, to: StoragePath, now: int, c': Cache, r: Outcome<Error>)
    requires Inv(c) && MovesCleanly(fold, c.rows, from, to) && MoveOutcome(fold, c, from, to, now, c', r)
    ensures (c', r) == Move(c, from, to, now)
  {
    var parent := ResolveParent(c.rows, to);
    if parent.Ok? && from in c.rows && to !in c.rows {
      var rows1 := LeafMoved(c.rows, from, to, parent.value);
      var rows2, r2 :| Rewritten(rows1, Rewrites(fold, rows1, from, to), rows2, r2) &&
                       if r2.Done? then Rewalked(c, rows2, from, to, now, c', r) else c' == c && r == r2;
      CleanRewriting(fold, c, from, to, parent.value, rows2, r2);
      if r2.Done? {
        MovedWalks(c.rows, from, to, parent.value);
      }
    }
  }

  lemma AllSubstituted(rows: Rows, m: NewPaths, from: Path, to: Path)
    requires AllFit(m) && forall q :: q in m <==> q in rows && from < q
    requires forall q :: q in m ==> m[q] == Fitting(Subst(from, to, q))
    ensures Substitutes(rows, m, from, to)
  {
  }
}
