// SQL LIKE, and when the pattern `dir/%` selects exactly the rows below `dir`.
module LikePattern {
  import opened StoragePaths

  predicate IsLetter(c: char) {
    'a' <= c <= 'z' || 'A' <= c <= 'Z'
  }

  // ASCII case swap; the identity on every other character.
  function SwapCase(c: char): char {
    if 'a' <= c <= 'z' then (c as int - 32) as char
    else if 'A' <= c <= 'Z' then (c as int + 32) as char
    else c
  }

  // `fold` is sqlite's default, case-insensitive on ASCII letters.  The mysql table has a
  // binary collation and postgres compares exactly, so both have `fold == false`.
  predicate SameChar(fold: bool, a: char, b: char) {
    a == b || (fold && SwapCase(a) == b)
  }

  predicate Like(fold: bool, pat: string, s: string)
    decreases |pat|, |s|
  {
    if pat == "" then s == ""
    else if pat[0] == '%' then Like(fold, pat[1..], s) || (s != "" && Like(fold, pat, s[1..]))
    else s != "" && (pat[0] == '_' || SameChar(fold, pat[0], s[0])) && Like(fold, pat[1..], s[1..])
  }

  // What the program selects as "the descendants of dir".
  predicate LikeBelow(fold: bool, dir: Path, p: Path) {
    Like(fold, (if dir == [] then "" else Render(dir) + "/") + "%", Render(p))
  }

  // No character of the text can match anything but itself.
  predicate LiteralText(fold: bool, s: string) {
    forall i :: 0 <= i < |s| ==> s[i] != '%' && s[i] != '_' && (fold ==> !IsLetter(s[i]))
  }

  predicate LiteralPath(fold: bool, p: Path) {
    forall i :: 0 <= i < |p| ==> LiteralText(fold, p[i])
  }

  lemma {:induction false} LikeAnything(fold: bool, s: string)
    ensures Like(fold, "%", s)
  {
    if s != "" {
      LikeAnything(fold, s[1..]);
    }
  }

  lemma {:induction false} LikeLiteral(fold: bool, lit: string, s: string)
    requires LiteralText(fold, lit)
    ensures Like(fold, lit + "%", s) <==> lit <= s
  {
    var pat := lit + "%";
    if lit == "" {
      assert pat == "%";
      LikeAnything(fold, s);
    } else {
      assert pat[0] == lit[0] && pat[1..] == lit[1..] + "%";
      if s != "" {
        LikeLiteral(fold, lit[1..], s[1..]);
        assert lit <= s <==> lit[0] == s[0] && lit[1..] <= s[1..] by {
          assert lit == [lit[0]] + lit[1..] && s == [s[0]] + s[1..];
        }
      }
    }
  }

  // A pattern matches any text obtained by replacing single characters with matching ones.
  lemma {:induction false} LikeCharwise(fold: bool, lit: string, t: string, rest: string)
    requires |lit| == |t|
    requires forall i :: 0 <= i < |lit| ==> lit[i] == '%' || lit[i] == '_' || SameChar(fold, lit[i], t[i])
    ensures Like(fold, lit + "%", t + rest)
  {
    var pat, s := lit + "%", t + rest;
    if lit == "" {
      assert pat == "%" && s == rest;
      LikeAnything(fold, rest);
    } else {
      LikeCharwise(fold, lit[1..], t[1..], rest);
      assert pat[1..] == lit[1..] + "%" && s[1..] == t[1..] + rest;
      if pat[0] == '%' {
        LikeSkip(fold, pat[1..], s);
      }
    }
  }

  // `%` may swallow one character.
  lemma {:induction false} LikeSkip(fold: bool, pat: string, s: string)
    requires s != "" && Like(fold, pat, s[1..])
    ensures Like(fold, "%" + pat, s)
  {
    assert ("%" + pat)[1..] == pat;
    assert Like(fold, "%" + pat, s[1..]);
  }

  lemma {:induction false} RenderLiteral(fold: bool, p: Path)
    requires LiteralPath(fold, p)
    ensures LiteralText(fold, Render(p))
  {
    if |p| > 1 {
      assert forall i :: 0 <= i < |p| - 1 ==> p[1..][i] == p[i + 1];
      RenderLiteral(fold, p[1..]);
    }
  }

  lemma LiteralSelectsBelow(fold: bool, dir: Path, p: Path)
    requires LegalPath(dir) && LegalPath(p) && dir != [] && LiteralPath(fold, dir)
    ensures LikeBelow(fold, dir, p) <==> dir < p
  {
    RenderLiteral(fold, dir);
    LikeLiteral(fold, Render(dir) + "/", Render(p));
    StartsWithIsBelow(dir, p);
  }

  // A character that some other character would match in the same place.
  function Impostor(c: char): char {
    if IsLetter(c) then SwapCase(c) else 'a'
  }

  // The character at `j` of segment `i` can stand for another one.
  predicate Loose(fold: bool, dir: Path, i: nat, j: nat) {
    i < |dir| && j < |dir[i]| && (dir[i][j] == '%' || dir[i][j] == '_' || (fold && IsLetter(dir[i][j])))
  }

  function Twin(dir: Path, i: nat, j: nat): Path
    requires i < |dir| && j < |dir[i]|
  {
    dir[i := dir[i][j := Impostor(dir[i][j])]]
  }

  // Replacing one loose character gives a different directory whose contents also match.
  lemma LooseSelectsElsewhere(fold: bool, dir: Path, i: nat, j: nat)
    requires LegalPath(dir) && Loose(fold, dir, i, j)
    ensures
      var p := Twin(dir, i, j) + ["x"];
      LegalPath(p) && LikeBelow(fold, dir, p) && !(dir < p) && Twin(dir, i, j) != dir
  {
    var c := dir[i][j];
    var seg := dir[i][j := Impostor(c)];
    var twin := Twin(dir, i, j);
    var p := twin + ["x"];
    RenderUpdate(dir, i, seg, fold);
    RenderAppend(twin, ["x"]);
    LikeCharwise(fold, Render(dir) + "/", Render(twin) + "/", "x");
    assert Render(twin) + "/" + "x" == Render(p);
    assert seg[j] != dir[i][j];
    assert p[i] != dir[i];
  }

  lemma {:induction false} RenderUpdate(dir: Path, i: nat, seg: string, fold: bool)
    requires i < |dir| && |seg| == |dir[i]|
    requires forall j :: 0 <= j < |seg| ==>
               dir[i][j] == '%' || dir[i][j] == '_' || SameChar(fold, dir[i][j], seg[j])
    ensures |Render(dir)| == |Render(dir[i := seg])|
    ensures forall k :: 0 <= k < |Render(dir)| ==>
              Render(dir)[k] == '%' || Render(dir)[k] == '_' ||
              SameChar(fold, Render(dir)[k], Render(dir[i := seg])[k])
  {
    if |dir| > 1 {
      if i == 0 {
        assert dir[i := seg][1..] == dir[1..];
      } else {
        RenderUpdate(dir[1..], i - 1, seg, fold);
        assert dir[i := seg][1..] == dir[1..][i - 1 := seg];
      }
    }
  }

  lemma SomeLoose(fold: bool, dir: Path) returns (i: nat, j: nat)
    requires !LiteralPath(fold, dir)
    ensures Loose(fold, dir, i, j)
  {
    i, j :| 0 <= i < |dir| && 0 <= j < |dir[i]| &&
            (dir[i][j] == '%' || dir[i][j] == '_' || (fold && IsLetter(dir[i][j])));
  }

  // The selection is right for every path exactly when the moved directory's name is
  // literal: no `%`, no `_`, and on a case-folding database no ASCII letter.
  lemma LikeIsExactIff(fold: bool, dir: Path)
    requires LegalPath(dir) && dir != []
    ensures (forall p :: LegalPath(p) ==> (LikeBelow(fold, dir, p) <==> dir < p)) <==> LiteralPath(fold, dir)
  {
    if LiteralPath(fold, dir) {
      forall p | LegalPath(p)
        ensures LikeBelow(fold, dir, p) <==> dir < p
      {
        LiteralSelectsBelow(fold, dir, p);
      }
    } else {
      var i, j := SomeLoose(fold, dir);
      LooseSelectsElsewhere(fold, dir, i, j);
    }
  }

  // Moving `a_b` selects a row of the sibling directory `axb`.
  lemma WildcardSelectsSibling(fold: bool)
    ensures LikeBelow(fold, ["a_b"], ["axb", "c"]) && !(["a_b"] < ["axb", "c"])
  {
    LikeCharwise(fold, "a_b/", "axb/", "c");
    assert Render(["a_b"]) + "/" == "a_b/";
    assert Render(["axb", "c"]) == "axb/" + "c" by {
      assert ["axb", "c"][1..] == ["c"];
    }
  }
}
