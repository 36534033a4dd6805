// The property store: rows keyed by user, path text and property name, carried along when a
// resource is moved or copied.
module Properties {
  import opened Wrappers
  import opened StoragePaths
  import opened LikePattern
  import opened PlainTree
  import opened UniqueIndex

  datatype Key = Key(user: string, path: string, name: string)

  type Rows = map<Key, string>

  // SUBSTR(s, n + 1): without the first n characters.
  function Drop(s: string, n: nat): string {
    if n <= |s| then s[n..] else ""
  }

  // ---------- the two statements of a rename ----------

  function MoveExact(from: string, to: string, s: string): string {
    if s == from then to else s
  }

  // The offset is the length of the prefix in bytes, but the database counts characters.
  function MoveBelow(fold: bool, from: string, to: string, s: string): string {
    if Like(fold, from + "/" + "%", s) then to + "/" + Drop(s, ByteLen(from + "/")) else s
  }

  function Renamed(fold: bool, from: string, to: string, s: string): string {
    MoveBelow(fold, from, to, MoveExact(from, to, s))
  }

  // The program's own cut, which panics inside a character or past the end.
  function CopiedTo(from: string, to: string, s: string): Option<string> {
    if s == from then Some(to)
    else
      match CutBytes(s, ByteLen(from + "/"))
      case None => None
      case Some(rest) => Some(to + "/" + rest)
  }

  // ---------- bytes and characters ----------

  predicate Ascii(s: string) {
    forall i :: 0 <= i < |s| ==> s[i] as int < 0x80
  }

  lemma {:induction false} BytesIffAscii(s: string)
    ensures ByteLen(s) >= |s|
    ensures ByteLen(s) == |s| <==> Ascii(s)
    decreases |s|
  {
    if s != "" {
      BytesIffAscii(s[1..]);
      assert Ascii(s) <==> s[0] as int < 0x80 && Ascii(s[1..]) by {
        assert forall i :: 0 < i < |s| ==> s[i] == s[1..][i - 1];
      }
    }
  }

  lemma SlashByte(s: string)
    ensures ByteLen(s + "/") >= |s| + 1 && (ByteLen(s + "/") == |s| + 1 <==> Ascii(s))
  {
    BytesIffAscii(s + "/");
    assert forall i :: 0 <= i < |s| ==> (s + "/")[i] == s[i];
    assert Ascii(s + "/") <==> Ascii(s);
  }

  // ---------- what a rename does to one path ----------

  lemma BelowText(from: Path, p: Path)
    requires LegalPath(from) && LegalPath(p) && from != [] && from < p
    ensures Render(p) == Render(from) + "/" + Render(p[|from|..]) && Render(p[|from|..]) != ""
  {
    var rest := p[|from|..];
    assert p == from + rest;
    assert forall i :: 0 <= i < |rest| ==> rest[i] == p[|from| + i];
    RenderAppend(from, rest);
    RenderEnds(rest);
  }

  // Whatever the name, the pattern selects what lies below it.
  lemma BelowIsSelected(fold: bool, from: Path, p: Path)
    requires LegalPath(from) && LegalPath(p) && from != [] && from < p
    ensures LikeBelow(fold, from, p)
  {
    BelowText(from, p);
    LikeCharwise(fold, Render(from) + "/", Render(from) + "/", Render(p[|from|..]));
  }

  // The row at the old path must not be selected at its new one; below it the byte count
  // must be the character count; and a row elsewhere must not be selected, unless cutting it
  // and putting the new path in front happens to change nothing.
  predicate RenamesRight(fold: bool, from: Path, to: Path, p: Path) {
    if p == from then !LikeBelow(fold, from, to)
    else if from < p then Ascii(Render(from))
    else LikeBelow(fold, from, p) ==> to < p && ByteLen(Render(from)) == |Render(to)|
  }

  // A row gets the substituted path exactly then.
  lemma RenameOf(fold: bool, from: Path, to: Path, p: Path)
    requires LegalPath(from) && LegalPath(to) && LegalPath(p) && from != [] && to != []
    ensures Renamed(fold, Render(from), Render(to), Render(p)) == Render(Subst(from, to, p)) <==>
            RenamesRight(fold, from, to, p)
  {
    SlashByte(Render(from));
    if Render(p) == Render(from) {
      RenderInjective(p, from);
    }
    if p == from {
      assert Subst(from, to, p) == to;
    } else if from < p {
      RenameBelow(fold, from, to, p);
    } else {
      if from <= p {
        ProperPrefix(from, p);
      }
      RenameElsewhere(fold, from, to, p);
    }
  }

  lemma RenameBelow(fold: bool, from: Path, to: Path, p: Path)
    requires LegalPath(from) && LegalPath(to) && LegalPath(p) && from != [] && to != [] && from < p &&
             Render(p) != Render(from)
    ensures Renamed(fold, Render(from), Render(to), Render(p)) == Render(Subst(from, to, p)) <==> Ascii(Render(from))
  {
    SlashByte(Render(from));
    BelowIsSelected(fold, from, p);
    BelowText(from, p);
    var rest, n := Render(p[|from|..]), ByteLen(Render(from) + "/");
    RenderAppend(to, p[|from|..]);
    assert Subst(from, to, p) == to + p[|from|..];
    if Ascii(Render(from)) {
      assert Drop(Render(p), n) == rest;
    } else {
      assert |Drop(Render(p), n)| < |rest|;
    }
  }

  lemma RenameElsewhere(fold: bool, from: Path, to: Path, p: Path)
    requires LegalPath(from) && LegalPath(to) && LegalPath(p) && from != [] && to != [] && !(from <= p) &&
             Render(p) != Render(from)
    ensures Renamed(fold, Render(from), Render(to), Render(p)) == Render(Subst(from, to, p)) <==>
            (LikeBelow(fold, from, p) ==> to < p && ByteLen(Render(from)) == |Render(to)|)
  {
    var s, t, n := Render(p), Render(to), ByteLen(Render(from) + "/");
    ByteLenConcat(Render(from), "/");
    assert Subst(from, to, p) == p;
    StartsWithIsBelow(to, p);
    if t + "/" <= s {
      BelowText(to, p);
      var rest := Render(p[|to|..]);
      assert s == t + "/" + rest;
      assert Drop(s, n) == rest <==> n == |t| + 1;
      assert t + "/" + Drop(s, n) == s ==> Drop(s, n) == s[|t| + 1..];
    }
  }

  // For the rows at hand: the rename substitutes the leading path in all of them exactly if
  // the old path is ASCII or has nothing below it, and the pattern selects nothing else.
  lemma RenameSubstitutesIff(fold: bool, from: Path, to: Path, paths: set<Path>)
    requires LegalPath(from) && LegalPath(to) && from != [] && to != [] && forall p :: p in paths ==> LegalPath(p)
    ensures (forall p :: p in paths ==>
             Renamed(fold, Render(from), Render(to), Render(p)) == Render(Subst(from, to, p))) <==>
            && ((exists p :: p in paths && from < p) ==> Ascii(Render(from)))
            && (from in paths ==> !LikeBelow(fold, from, to))
            && (forall p :: p in paths && !(from <= p) && LikeBelow(fold, from, p) ==>
                to < p && ByteLen(Render(from)) == |Render(to)|)
  {
    forall p | p in paths
      ensures Renamed(fold, Render(from), Render(to), Render(p)) == Render(Subst(from, to, p)) <==>
              RenamesRight(fold, from, to, p)
      ensures p != from ==> (from <= p <==> from < p)
    {
      RenameOf(fold, from, to, p);
    }
  }

  // An ASCII name that is renamed wrongly all the same: `a_b` to `z` takes `axb/c` along.
  lemma RenameTakesSibling(fold: bool)
    ensures Renamed(fold, "a_b", "z", "axb/c") == "z/c"
    ensures Ascii("a_b") && !RenamesRight(fold, ["a_b"], ["z"], ["axb", "c"])
  {
    WildcardSelectsSibling(fold);
    assert Render(["axb", "c"]) == "axb/c" by {
      assert ["axb", "c"][1..] == ["c"];
    }
    assert "a_b" + "/" == "a_b/" && "z" + "/" == "z/";
    BytesIffAscii("a_b/");
    assert "axb/c"[4..] == "c" && "z/" + "c" == "z/c";
  }

  // A copy computes the new path in the program, in bytes, and is right for every name.
  lemma CopySubstitutes(from: Path, to: Path, p: Path)
    requires LegalPath(from) && LegalPath(to) && LegalPath(p) && from != [] && to != [] && from <= p
    ensures CopiedTo(Render(from), Render(to), Render(p)) == Some(Render(Subst(from, to, p)))
  {
    if p == from {
      assert Subst(from, to, p) == to;
    } else {
      ProperPrefix(from, p);
      BelowText(from, p);
      var rest := p[|from|..];
      RenderAppend(to, rest);
      assert Subst(from, to, p) == to + rest;
      CutPrefix(Render(from) + "/", Render(rest));
      if Render(p) == Render(from) {
        RenderInjective(p, from);
      }
    }
  }

  // ---------- one UPDATE ----------

  // The statement for the resource itself, or the one for the rows below it.
  datatype Update = Update(user: string, fold: bool, from: string, to: string, below: bool)

  function NewKey(k: Key, u: Update): Key {
    if k.user != u.user then k
    else k.(path := if u.below then MoveBelow(u.fold, u.from, u.to, k.path) else MoveExact(u.from, u.to, k.path))
  }

  // The key each row is given.
  function NewKeys(rows: Rows, u: Update): map<Key, Key> {
    map k | k in rows :: NewKey(k, u)
  }

  ghost predicate Statement(rows: Rows, u: Update, works: bool, rows': Rows, ok: bool) {
    if works then Updated(rows, NewKeys(rows, u), rows', ok) else !ok && rows' == rows
  }

  // ---------- the store ----------

  // The key of the copy, if the program can cut the path.
  function TargetKey(k: Key, from: string, to: string): Option<Key> {
    match CopiedTo(from, to, k.path)
    case None => None
    case Some(path) => Some(k.(path := path))
  }

  predicate Selected(k: Key, user: string, fold: bool, from: string) {
    k.user == user && (k.path == from || Like(fold, from + "/" + "%", k.path))
  }

  class PropertyStore {
    const fold: bool
    var rows: Rows

    constructor (fold: bool)
      ensures this.fold == fold && rows == map[]
    {
      this.fold := fold;
      rows := map[];
    }

    method Upsert(user: string, path: string, name: string, value: string)
      modifies this
      ensures rows == old(rows)[Key(user, path, name) := value]
    {
      rows := rows[Key(user, path, name) := value];
    }

    // One UPDATE of the paths, row by row: all rows or, when the index refuses one or the
    // database fails, none.
    method Rekey(u: Update, works: bool) returns (ok: bool)
      modifies this
      ensures Statement(old(rows), u, works, rows, ok)
    {
      if !works {
        return false;
      }
      var m := NewKeys(rows, u);
      var before, todo := rows, rows.Keys;
      ghost var order: seq<Key> := [];
      while todo != {}
        invariant todo <= m.Keys == before.Keys
        invariant Visits(m, order, false) && (forall k :: k in m ==> (k in todo <==> k !in order))
        invariant InOrder(before, m, order) == Some(rows)
      {
        var k :| k in todo;
        OneMoreVisit(m, order, k);
        Unvisited(before, m, order, k);
        order := order + [k];
        todo := todo - {k};
        if m[k] != k {
          if m[k] in rows {
            rows := before;
            assert InOrder(before, m, order) == None;
            return false;
          }
          rows := (rows - {k})[m[k] := rows[k]];
        }
      }
      return true;
    }

    // Two statements without a transaction: the second can fail after the first has worked.
    method RenamePath(user: string, from: string, to: string, firstWorks: bool, secondWorks: bool) returns (ok: bool)
      modifies this
      ensures
        exists middle, first ::
          && Statement(old(rows), Update(user, fold, from, to, false), firstWorks, middle, first)
          && if first then Statement(middle, Update(user, fold, from, to, true), secondWorks, rows, ok)
             else !ok && rows == middle
      // It cannot fail when no row is in another's way.
      ensures NothingInTheWay(old(rows), user, fold, from, to) && firstWorks && secondWorks ==> ok
      ensures !ok ==>
                rows == old(rows) || Rekeyed(old(rows), rows, NewKeys(old(rows), Update(user, fold, from, to, false)))
      ensures ok ==> firstWorks && secondWorks && |rows| == |old(rows)|
      ensures forall k :: k in old(rows) && k.user != user ==> Holds(rows, k, old(rows)[k])
      ensures ok ==> forall k :: k in old(rows) ==> Holds(rows, RenamedKey(k, user, fold, from, to), old(rows)[k])
    {
      var exact, below := Update(user, fold, from, to, false), Update(user, fold, from, to, true);
      ghost var before := rows;
      var first := Rekey(exact, firstWorks);
      ghost var middle := rows;
      if !first {
        MayFailIff(before, NewKeys(before, exact));
        OthersStay(before, rows, exact, firstWorks, first);
        return false;
      }
      UpdatedRekeys(before, NewKeys(before, exact), middle);
      OthersStay(before, middle, exact, firstWorks, first);
      ok := Rekey(below, secondWorks);
      OthersStay(middle, rows, below, secondWorks, ok);
      MayFailIff(middle, NewKeys(middle, below));
      if ok {
        UpdatedRekeys(middle, NewKeys(middle, below), rows);
        TwoSteps(before, middle, rows, user, fold, from, to);
      }
    }

    // Reads all the rows first, then writes the copies one by one, until the database fails
    // after `upto` of them or a path cannot be cut.
    method CopyPath(user: string, from: string, to: string, upto: nat) returns (ok: bool)
      modifies this
      ensures ok <==> |SelectedKeys(old(rows), user, fold, from)| <= upto &&
                      forall k :: k in SelectedKeys(old(rows), user, fold, from) ==> TargetKey(k, from, to).Some?
      ensures ok ==> Arrived(old(rows), rows, {}, user, fold, from, to)
      ensures Untouched(old(rows), rows, user, fold, from, to)
    {
      var before := rows;
      var all := SelectedKeys(before, user, fold, from);
      var todo, n := all, 0;
      while todo != {}
        invariant todo <= all && n == |all| - |todo| && n <= upto
        invariant forall k :: k in all - todo ==> TargetKey(k, from, to).Some?
        invariant Arrived(before, rows, todo, user, fold, from, to)
        invariant Untouched(before, rows, user, fold, from, to)
        decreases todo
      {
        if n == upto {
          return false;
        }
        var k :| k in todo;
        var t := TargetKey(k, from, to);
        if t.None? {
          return false;
        }
        CopyStep(before, rows, todo, k, user, fold, from, to);
        Upsert(t.value.user, t.value.path, t.value.name, before[k]);
        todo := todo - {k};
        n := n + 1;
      }
      return true;
    }
  }

  // ---------- both statements ----------

  // A statement leaves the rows of other users alone.
  lemma OthersStay(rows: Rows, rows': Rows, u: Update, works: bool, ok: bool)
    requires Statement(rows, u, works, rows', ok)
    ensures forall k :: k in rows && k.user != u.user ==> Holds(rows', k, rows[k])
  {
    MayFailIff(rows, NewKeys(rows, u));
    if ok {
      UpdatedRekeys(rows, NewKeys(rows, u), rows');
      forall k | k in rows && k.user != u.user
        ensures Holds(rows', k, rows[k])
      {
        assert NewKeys(rows, u)[k] == k;
      }
    }
  }

  function RenamedKey(k: Key, user: string, fold: bool, from: string, to: string): Key {
    if k.user != user then k else k.(path := Renamed(fold, from, to, k.path))
  }

  ghost predicate NothingInTheWay(rows: Rows, user: string, fold: bool, from: string, to: string) {
    var exact, below := Update(user, fold, from, to, false), Update(user, fold, from, to, true);
    && !Blocked(NewKeys(rows, exact))
    && forall middle :: Rekeyed(rows, middle, NewKeys(rows, exact)) ==> !Blocked(NewKeys(middle, below))
  }

  lemma TwoSteps(rows: Rows, middle: Rows, rows': Rows, user: string, fold: bool, from: string, to: string)
    requires Rekeyed(rows, middle, NewKeys(rows, Update(user, fold, from, to, false)))
    requires Rekeyed(middle, rows', NewKeys(middle, Update(user, fold, from, to, true)))
    ensures forall k :: k in rows ==> Holds(rows', RenamedKey(k, user, fold, from, to), rows[k])
  {
    forall k | k in rows
      ensures Holds(rows', RenamedKey(k, user, fold, from, to), rows[k])
    {
      var k1 := NewKey(k, Update(user, fold, from, to, false));
      assert Holds(middle, k1, rows[k]);
      assert NewKey(k1, Update(user, fold, from, to, true)) == RenamedKey(k, user, fold, from, to);
    }
  }

  // ---------- when a rename goes through ----------

  // The user's rows are at legal paths.
  ghost predicate LegalRows(rows: Rows, user: string) {
    forall k :: k in rows && k.user == user ==> IsRendered(k.path)
  }

  ghost predicate IsRendered(s: string) {
    exists p :: LegalPath(p) && s == Render(p)
  }

  ghost function PathOf(s: string): Path
    requires IsRendered(s)
  {
    var p :| LegalPath(p) && s == Render(p); p
  }

  // Nothing of the user's at or below the new path, and no row is renamed wrongly.
  ghost predicate RenamesCleanly(rows: Rows, user: string, fold: bool, from: Path, to: Path) {
    && LegalRows(rows, user)
    && forall k :: k in rows && k.user == user ==>
         !(to <= PathOf(k.path)) && RenamesRight(fold, from, to, PathOf(k.path))
  }

  lemma CleanKey(k: Key, user: string, fold: bool, from: Path, to: Path)
    requires LegalPath(from) && LegalPath(to) && from != [] && to != [] && k.user == user
    requires IsRendered(k.path) && RenamesRight(fold, from, to, PathOf(k.path))
    ensures RenamedKey(k, user, fold, Render(from), Render(to)) == k.(path := Render(Subst(from, to, PathOf(k.path))))
  {
    RenameOf(fold, from, to, PathOf(k.path));
  }

  // In such a rename no row is in another's way in either statement.
  lemma CleanRenameSucceeds(rows: Rows, user: string, fold: bool, from: Path, to: Path)
    requires LegalPath(from) && LegalPath(to) && from != [] && to != [] && RenamesCleanly(rows, user, fold, from, to)
    ensures NothingInTheWay(rows, user, fold, Render(from), Render(to))
  {
    var exact := Update(user, fold, Render(from), Render(to), false);
    var below := exact.(below := true);
    forall j, k | j in rows && k in rows && j != k
      ensures NewKey(j, exact) != k && NewKey(j, exact) != NewKey(k, exact)
      ensures NewKey(NewKey(j, exact), below) != NewKey(k, exact)
      ensures NewKey(NewKey(j, exact), below) != NewKey(NewKey(k, exact), below)
    {
      CleanPair(rows, user, fold, from, to, j, k);
      CleanApart(rows, user, fold, from, to, j, k);
    }
    forall middle | Rekeyed(rows, middle, NewKeys(rows, exact))
      ensures !Blocked(NewKeys(middle, below))
    {
      forall j', k' | j' in middle && k' in middle && j' != k'
        ensures NewKey(j', below) != k' && NewKey(j', below) != NewKey(k', below)
      {
        var j :| j in rows && NewKey(j, exact) == j';
        var k :| k in rows && NewKey(k, exact) == k';
      }
    }
  }

  lemma CleanPair(rows: Rows, user: string, fold: bool, from: Path, to: Path, j: Key, k: Key)
    requires LegalPath(from) && LegalPath(to) && from != [] && to != [] && RenamesCleanly(rows, user, fold, from, to)
    requires j in rows && k in rows && j != k
    ensures RenamedKey(j, user, fold, Render(from), Render(to)) != RenamedKey(k, user, fold, Render(from), Render(to))
  {
    if j.user == user && k.user == user {
      var p, q := PathOf(j.path), PathOf(k.path);
      CleanKey(j, user, fold, from, to);
      CleanKey(k, user, fold, from, to);
      LegalSubstitute(from, to, p);
      LegalSubstitute(from, to, q);
      if Render(Subst(from, to, p)) == Render(Subst(from, to, q)) {
        RenderInjective(Subst(from, to, p), Subst(from, to, q));
        SubstInverse({p, q}, from, to, p);
        SubstInverse({p, q}, from, to, q);
      }
    }
  }

  // What a row is renamed to is no row's key before or between the statements.
  lemma CleanApart(rows: Rows, user: string, fold: bool, from: Path, to: Path, j: Key, k: Key)
    requires LegalPath(from) && LegalPath(to) && from != [] && to != [] && RenamesCleanly(rows, user, fold, from, to)
    requires j in rows && k in rows && j != k
    ensures NewKey(j, Update(user, fold, Render(from), Render(to), false)) != k
    ensures RenamedKey(j, user, fold, Render(from), Render(to)) !=
            NewKey(k, Update(user, fold, Render(from), Render(to), false))
  {
    if j.user == user && k.user == user {
      var p, q := PathOf(j.path), PathOf(k.path);
      CleanKey(j, user, fold, from, to);
      LegalSubstitute(from, to, p);
      SubstFacts(from, to, p);
      if Render(Subst(from, to, p)) == Render(q) {
        RenderInjective(Subst(from, to, p), q);
      }
      if Render(Subst(from, to, p)) == Render(to) {
        RenderInjective(Subst(from, to, p), to);
      }
      if Render(to) == Render(q) {
        RenderInjective(to, q);
      }
    }
  }

  // Into its own subtree: a row below the old path is given the key that another row has
  // now and leaves later.  Whether the statement fails depends on which comes first.
  lemma OrderDecides(fold: bool, user: string, from: Path, seg: string, rest: Path, name: string, rows: Rows)
    requires LegalPath(from) && from != [] && LegalPath([seg]) && LegalPath(rest) && rest != [] && Ascii(Render(from))
    requires rows.Keys == {Key(user, Render(from + rest), name), Key(user, Render(from + [seg] + rest), name)}
    ensures
      var m := NewKeys(rows, Update(user, fold, Render(from), Render(from + [seg]), true));
      !Collides(m) && Updated(rows, m, rows, false) && exists rows' :: Updated(rows, m, rows', true)
  {
    var j, k := DeeperKeys(fold, user, from, seg, rest, name);
    ChainOrders(rows, NewKeys(rows, Update(user, fold, Render(from), Render(from + [seg]), true)), j, k);
  }

  lemma DeeperKeys(fold: bool, user: string, from: Path, seg: string, rest: Path, name: string) returns (j: Key, k: Key)
    requires LegalPath(from) && from != [] && LegalPath([seg]) && LegalPath(rest) && rest != [] && Ascii(Render(from))
    ensures j == Key(user, Render(from + rest), name) && k == Key(user, Render(from + [seg] + rest), name)
    ensures
      var u := Update(user, fold, Render(from), Render(from + [seg]), true);
      j != k && NewKey(j, u) == k && NewKey(k, u) != k && NewKey(k, u) != j
  {
    var p, q, r := from + rest, from + [seg] + rest, from + [seg] + ([seg] + rest);
    j, k := Key(user, Render(p), name), Key(user, Render(q), name);
    GivenDeeper(fold, user, from, seg, rest, name);
    GivenDeeper(fold, user, from, seg, [seg] + rest, name);
    assert from + ([seg] + rest) == q;
    LongerDiffers(p, q);
    LongerDiffers(q, r);
    LongerDiffers(p, r);
  }

  lemma GivenDeeper(fold: bool, user: string, from: Path, seg: string, rest: Path, name: string)
    requires LegalPath(from) && from != [] && LegalPath([seg]) && LegalPath(rest) && rest != [] && Ascii(Render(from))
    ensures
      var u := Update(user, fold, Render(from), Render(from + [seg]), true);
      NewKey(Key(user, Render(from + rest), name), u) == Key(user, Render(from + [seg] + rest), name)
  {
    var p := from + rest;
    assert from < p && p[|from|..] == rest;
    if Render(p) == Render(from) {
      RenderInjective(p, from);
    }
    RenameBelow(fold, from, from + [seg], p);
  }

  lemma LongerDiffers(p: Path, q: Path)
    requires LegalPath(p) && LegalPath(q) && |p| < |q|
    ensures Render(p) != Render(q)
  {
    if Render(p) == Render(q) {
      RenderInjective(p, q);
    }
  }

  lemma LegalSubstitute(from: Path, to: Path, p: Path)
    requires LegalPath(to) && LegalPath(p)
    ensures LegalPath(Subst(from, to, p))
  {
  }

  // ---------- the loop of a copy ----------

  function SelectedKeys(rows: Rows, user: string, fold: bool, from: string): set<Key> {
    set k | k in rows && Selected(k, user, fold, from)
  }

  // Where a selected row but those still to do is copied to, there is a selected row's value.
  ghost predicate Arrived(before: Rows, rows: Rows, todo: set<Key>, user: string, fold: bool, from: string,
                          to: string) {
    forall k :: k in SelectedKeys(before, user, fold, from) && k !in todo ==>
                  TargetKey(k, from, to).Some? &&
                    CopyAt(before, rows, user, fold, from, to, TargetKey(k, from, to).value)
  }

  ghost predicate CopyAt(before: Rows, rows: Rows, user: string, fold: bool, from: string, to: string, j: Key) {
    exists k :: k in SelectedKeys(before, user, fold, from) && TargetKey(k, from, to) == Some(j) &&
      Holds(rows, j, before[k])
  }

  // No row has changed but at the place of a copy.
  ghost predicate Untouched(before: Rows, rows: Rows, user: string, fold: bool, from: string, to: string) {
    forall j :: !IsTarget(before, user, fold, from, to, j) ==>
      (j in rows <==> j in before) && (j in before ==> Holds(rows, j, before[j]))
  }

  lemma CopyStep(before: Rows, rows: Rows, todo: set<Key>, k: Key, user: string, fold: bool, from: string, to: string)
    requires k in todo && k in SelectedKeys(before, user, fold, from) && TargetKey(k, from, to).Some?
    ensures
      var rows' := rows[TargetKey(k, from, to).value := before[k]];
      && (Arrived(before, rows, todo, user, fold, from, to) ==>
          Arrived(before, rows', todo - {k}, user, fold, from, to))
      && (Untouched(before, rows, user, fold, from, to) ==> Untouched(before, rows', user, fold, from, to))
  {
    var t := TargetKey(k, from, to).value;
    var rows' := rows[t := before[k]];
    assert IsTarget(before, user, fold, from, to, t);
    assert Holds(rows', t, before[k]) && CopyAt(before, rows', user, fold, from, to, t);
    if Arrived(before, rows, todo, user, fold, from, to) {
      forall i | i in SelectedKeys(before, user, fold, from) && i !in todo - {k}
        ensures TargetKey(i, from, to).Some? &&
                CopyAt(before, rows', user, fold, from, to, TargetKey(i, from, to).value)
      {
        if i != k && TargetKey(i, from, to).value != t {
          var j := TargetKey(i, from, to).value;
          var l :| l in SelectedKeys(before, user, fold, from) && TargetKey(l, from, to) == Some(j) &&
            Holds(rows, j, before[l]);
          assert Holds(rows', j, before[l]);
        }
      }
    }
  }

  ghost predicate IsTarget(rows: Rows, user: string, fold: bool, from: string, to: string, j: Key) {
    exists k :: k in rows && Selected(k, user, fold, from) && TargetKey(k, from, to) == Some(j)
  }

  // If no two selected rows are copied to one place, each has its own copy.
  lemma CopiesApart(before: Rows, rows: Rows, user: string, fold: bool, from: string, to: string, k: Key)
    requires Arrived(before, rows, {}, user, fold, from, to) && k in SelectedKeys(before, user, fold, from)
    requires forall j :: j in SelectedKeys(before, user, fold, from) && j != k ==>
               TargetKey(j, from, to) != TargetKey(k, from, to)
    ensures TargetKey(k, from, to).Some? && Holds(rows, TargetKey(k, from, to).value, before[k])
  {
  }

  // ---------- what a copy carries over ----------

  // Of the user's rows the pattern selects just those below the old path.
  ghost predicate SelectsBelow(rows: Rows, user: string, fold: bool, from: Path) {
    && LegalRows(rows, user)
    && forall k :: k in rows && k.user == user && LikeBelow(fold, from, PathOf(k.path)) ==> from < PathOf(k.path)
  }

  // Whatever the names: the row of the resource and those of everything below it are copied.
  lemma SubtreeSelected(rows: Rows, user: string, fold: bool, from: Path, k: Key)
    requires LegalPath(from) && from != [] && k in rows && k.user == user && IsRendered(k.path) &&
             from <= PathOf(k.path)
    ensures k in SelectedKeys(rows, user, fold, Render(from))
  {
    var p := PathOf(k.path);
    if p != from {
      ProperPrefix(from, p);
      BelowIsSelected(fold, from, p);
    }
  }

  lemma OnlySubtreeSelected(rows: Rows, user: string, fold: bool, from: Path, k: Key)
    requires LegalPath(from) && from != [] && SelectsBelow(rows, user, fold, from)
    requires k in SelectedKeys(rows, user, fold, Render(from))
    ensures k.user == user && from <= PathOf(k.path)
  {
    if k.path == Render(from) {
      RenderInjective(PathOf(k.path), from);
    }
  }

  // A copy that goes through has put the value of each of these rows at the substituted path,
  // if the pattern selected nothing else.
  lemma CopyCarriesSubtree(before: Rows, rows: Rows, user: string, fold: bool, from: Path, to: Path, k: Key)
    requires LegalPath(from) && LegalPath(to) && from != [] && to != [] && SelectsBelow(before, user, fold, from)
    requires Arrived(before, rows, {}, user, fold, Render(from), Render(to))
    requires k in before && k.user == user && from <= PathOf(k.path)
    ensures Holds(rows, k.(path := Render(Subst(from, to, PathOf(k.path)))), before[k])
  {
    var p, t := PathOf(k.path), k.(path := Render(Subst(from, to, PathOf(k.path))));
    SubtreeSelected(before, user, fold, from, k);
    CopySubstitutes(from, to, p);
    assert TargetKey(k, Render(from), Render(to)) == Some(t);
    var j := CopyAtTarget(before, rows, user, fold, Render(from), Render(to), k);
    OwnTarget(before, user, fold, from, to, j, k);
  }

  lemma CopyAtTarget(before: Rows, rows: Rows, user: string, fold: bool, from: string, to: string, k: Key)
    returns (j: Key)
    requires Arrived(before, rows, {}, user, fold, from, to) && k in SelectedKeys(before, user, fold, from)
    ensures TargetKey(k, from, to).Some? && j in SelectedKeys(before, user, fold, from)
    ensures TargetKey(j, from, to) == TargetKey(k, from, to) && Holds(rows, TargetKey(k, from, to).value, before[j])
  {
    var t := TargetKey(k, from, to).value;
    assert CopyAt(before, rows, user, fold, from, to, t);
    j :| j in SelectedKeys(before, user, fold, from) && TargetKey(j, from, to) == Some(t) && Holds(rows, t, before[j]);
  }

  lemma OwnTarget(rows: Rows, user: string, fold: bool, from: Path, to: Path, j: Key, k: Key)
    requires LegalPath(from) && LegalPath(to) && from != [] && to != [] && SelectsBelow(rows, user, fold, from)
    requires j in SelectedKeys(rows, user, fold, Render(from)) && k in SelectedKeys(rows, user, fold, Render(from))
    requires TargetKey(j, Render(from), Render(to)) == TargetKey(k, Render(from), Render(to))
    ensures j == k
  {
    OnlySubtreeSelected(rows, user, fold, from, j);
    OnlySubtreeSelected(rows, user, fold, from, k);
    CopySubstitutes(from, to, PathOf(j.path));
    CopySubstitutes(from, to, PathOf(k.path));
    TargetsApart(from, to, PathOf(j.path), PathOf(k.path));
  }

  lemma TargetsApart(from: Path, to: Path, p: Path, q: Path)
    requires LegalPath(to) && LegalPath(p) && LegalPath(q) && from <= p && from <= q &&
             Render(Subst(from, to, p)) == Render(Subst(from, to, q))
    ensures p == q
  {
    LegalSubstitute(from, to, p);
    LegalSubstitute(from, to, q);
    RenderInjective(Subst(from, to, p), Subst(from, to, q));
    SubstFacts(from, to, p);
    SubstFacts(from, to, q);
  }

  // Whether it goes through or not, the user's rows elsewhere and all others are as before.
  lemma CopyLeavesRest(before: Rows, rows: Rows, user: string, fold: bool, from: Path, to: Path, k: Key)
    requires LegalPath(from) && LegalPath(to) && from != [] && to != [] && SelectsBelow(before, user, fold, from)
    requires Untouched(before, rows, user, fold, Render(from), Render(to))
    requires k in before && (k.user != user || !(to <= PathOf(k.path)))
    ensures Holds(rows, k, before[k])
  {
    if IsTarget(before, user, fold, Render(from), Render(to), k) {
      var j :| j in before && Selected(j, user, fold, Render(from)) &&
        TargetKey(j, Render(from), Render(to)) == Some(k);
      OnlySubtreeSelected(before, user, fold, from, j);
      CopySubstitutes(from, to, PathOf(j.path));
      var q := Subst(from, to, PathOf(j.path));
      LegalSubstitute(from, to, PathOf(j.path));
      SubstFacts(from, to, PathOf(j.path));
      RenderInjective(q, PathOf(k.path));
    }
  }

  // A right rename onto a vacant target gives each row of the user the substituted path.
  lemma CleanRenameMoves(rows: Rows, rows': Rows, user: string, fold: bool, from: Path, to: Path, k: Key)
    requires LegalPath(from) && LegalPath(to) && from != [] && to != [] && RenamesCleanly(rows, user, fold, from, to)
    requires k in rows && k.user == user
    requires Holds(rows', RenamedKey(k, user, fold, Render(from), Render(to)), rows[k])
    ensures Holds(rows', k.(path := Render(Subst(from, to, PathOf(k.path)))), rows[k])
  {
    CleanKey(k, user, fold, from, to);
  }
}
