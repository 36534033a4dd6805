// Storage-relative paths.  The program stores them as strings; every proof about the
// tree uses the list of segments.  This module relates the two forms: which strings the
// constructor accepts, and what parent, basename, join and the prefix test mean.
module StoragePaths {
  import opened Wrappers

  const MAX_PATH_LEN: nat := 4096

  type Path = seq<string>

  datatype PathError = TooLong | EmbeddedNul | Backslash | LeadingSlash | EmptySegment | IllegalSegment

  // ---------- segments and rendering ----------

  predicate LegalSegment(s: string) {
    s != "" && s != "." && s != ".." && '/' !in s && '\0' !in s && '\\' !in s
  }

  predicate LegalPath(p: Path) {
    forall i :: 0 <= i < |p| ==> LegalSegment(p[i])
  }

  function Render(p: Path): string {
    if |p| == 0 then "" else if |p| == 1 then p[0] else p[0] + "/" + Render(p[1..])
  }

  function Slashes(k: nat): string {
    seq(k, i => '/')
  }

  // Bytes of the UTF-8 encoding, which is what the length check counts.
  function ByteLen(s: string): nat {
    if s == "" then 0 else CharBytes(s[0]) + ByteLen(s[1..])
  }

  function CharBytes(c: char): nat {
    if c as int < 0x80 then 1 else if c as int < 0x800 then 2 else if c as int < 0x10000 then 3 else 4
  }

  // ---------- the constructor ----------

  // `split('/')`: always at least one piece.
  function Split(s: string): (r: seq<string>)
    ensures |r| >= 1
  {
    if s == "" then [""]
    else if s[0] == '/' then [""] + Split(s[1..])
    else var r := Split(s[1..]); [[s[0]] + r[0]] + r[1..]
  }

  // The program's verdict on one raw string, as a function of the string.
  function Parse(s: string): Result<Path, PathError> {
    if ByteLen(s) > MAX_PATH_LEN then Err(TooLong)
    else if '\0' in s then Err(EmbeddedNul)
    else if '\\' in s then Err(Backslash)
    else if s != "" && s[0] == '/' then Err(LeadingSlash)
    else
      var t := TrimEnd(s);
      if t == "" then Ok([]) else CheckSegments(Split(t), 0)
  }

  function TrimEnd(s: string): string {
    if s != "" && s[|s| - 1] == '/' then TrimEnd(s[..|s| - 1]) else s
  }

  function CheckSegments(segs: seq<string>, i: nat): Result<Path, PathError>
    requires i <= |segs|
    decreases |segs| - i
  {
    if i == |segs| then Ok(segs)
    else if segs[i] == "" then Err(EmptySegment)
    else if segs[i] == "." || segs[i] == ".." then Err(IllegalSegment)
    else CheckSegments(segs, i + 1)
  }

  // `StoragePath::new`: trims in a loop, then checks the pieces in a loop.
  method New(raw: string) returns (r: Result<Path, PathError>)
    ensures r == Parse(raw)
  {
    if ByteLen(raw) > MAX_PATH_LEN {
      return Err(TooLong);
    }
    if '\0' in raw {
      return Err(EmbeddedNul);
    }
    if '\\' in raw {
      return Err(Backslash);
    }
    if raw != "" && raw[0] == '/' {
      return Err(LeadingSlash);
    }
    var s := raw;
    while s != "" && s[|s| - 1] == '/'
      invariant TrimEnd(s) == TrimEnd(raw)
      decreases |s|
    {
      s := s[..|s| - 1];
    }
    if s != "" {
      var segs := Split(s);
      var i := 0;
      while i < |segs|
        invariant 0 <= i <= |segs|
        invariant CheckSegments(segs, i) == CheckSegments(segs, 0)
      {
        if segs[i] == "" {
          return Err(EmptySegment);
        }
        if segs[i] == "." || segs[i] == ".." {
          return Err(IllegalSegment);
        }
        i := i + 1;
      }
      return Ok(segs);
    }
    return Ok([]);
  }

  lemma {:induction false} SplitRender(p: Path)
    requires |p| > 0 && forall i :: 0 <= i < |p| ==> '/' !in p[i]
    ensures Split(Render(p)) == p
  {
    SplitHead(p[0], if |p| == 1 then "" else Render(p[1..]), |p| > 1);
    if |p| > 1 {
      SplitRender(p[1..]);
      assert Render(p) == p[0] + "/" + Render(p[1..]);
    } else {
      assert p == [p[0]];
    }
  }

  lemma {:induction false} SplitHead(a: string, rest: string, more: bool)
    requires '/' !in a
    ensures more ==> Split(a + "/" + rest) == [a] + Split(rest)
    ensures !more ==> Split(a) == [a]
  {
    if a == "" {
      assert (a + "/" + rest)[1..] == rest;
    } else {
      SplitHead(a[1..], rest, more);
      assert a == [a[0]] + a[1..];
      var s := a + "/" + rest;
      assert s[1..] == a[1..] + "/" + rest;
      assert s[0] == a[0];
    }
  }

  lemma {:induction false} RenderSplit(s: string)
    ensures Render(Split(s)) == s
    ensures forall i :: 0 <= i < |Split(s)| ==> '/' !in Split(s)[i]
    ensures forall i, c :: 0 <= i < |Split(s)| && c in Split(s)[i] ==> c in s
  {
    if s != "" {
      RenderSplit(s[1..]);
      assert s == [s[0]] + s[1..];
      var r := Split(s[1..]);
      if s[0] == '/' {
        assert Split(s)[1..] == r;
      } else {
        assert Split(s) == [[s[0]] + r[0]] + r[1..];
        assert Split(s)[1..] == r[1..];
      }
    }
  }

  lemma {:induction false} TrimEndSlashes(s: string, k: nat)
    requires s == "" || s[|s| - 1] != '/'
    ensures TrimEnd(s + Slashes(k)) == s
  {
    if k == 0 {
      assert s + Slashes(0) == s;
    } else {
      var u := s + Slashes(k);
      assert u[|u| - 1] == '/';
      assert u[..|u| - 1] == s + Slashes(k - 1);
      TrimEndSlashes(s, k - 1);
    }
  }

  lemma {:induction false} TrimEndShape(s: string) returns (k: nat)
    ensures s == TrimEnd(s) + Slashes(k)
    ensures TrimEnd(s) == "" || TrimEnd(s)[|TrimEnd(s)| - 1] != '/'
    ensures s != "" && s[0] != '/' ==> TrimEnd(s) != ""
  {
    if s != "" && s[|s| - 1] == '/' {
      var j := TrimEndShape(s[..|s| - 1]);
      k := j + 1;
      assert Slashes(k) == Slashes(j) + "/";
      assert s == s[..|s| - 1] + "/";
    } else {
      k := 0;
      assert s == s + Slashes(0);
    }
  }

  lemma {:induction false} CheckSegmentsIff(segs: seq<string>, i: nat)
    requires i <= |segs|
    ensures CheckSegments(segs, i).Ok? <==>
            forall j :: i <= j < |segs| ==> segs[j] != "" && segs[j] != "." && segs[j] != ".."
    ensures CheckSegments(segs, i).Ok? ==> CheckSegments(segs, i).value == segs
    decreases |segs| - i
  {
    if i < |segs| {
      CheckSegmentsIff(segs, i + 1);
    }
  }

  lemma {:induction false} RenderChars(p: Path, c: char)
    requires c != '/'
    ensures c in Render(p) <==> exists i :: 0 <= i < |p| && c in p[i]
  {
    if |p| > 1 {
      RenderChars(p[1..], c);
      assert forall i :: 0 < i < |p| ==> p[i] == p[1..][i - 1];
      if i :| 0 <= i < |p| && c in p[i] {
        if i > 0 {
          assert c in p[1..][i - 1];
        }
      }
    }
  }

  lemma {:induction false} RenderEnds(p: Path)
    requires LegalPath(p) && p != []
    ensures Render(p) != "" && Render(p)[0] != '/' && Render(p)[|Render(p)| - 1] != '/'
  {
    if |p| > 1 {
      assert forall i :: 0 <= i < |p| - 1 ==> p[1..][i] == p[i + 1];
      RenderEnds(p[1..]);
    }
  }

  // The accepted strings are exactly the renderings of legal paths followed by any number
  // of slashes (none for the root), within the byte limit; the path is the one rendered.
  lemma {:induction false} ParseIff(s: string, p: Path)
    ensures Parse(s) == Ok(p) <==>
            LegalPath(p) && ByteLen(s) <= MAX_PATH_LEN &&
            exists k: nat :: s == Render(p) + Slashes(k) && (p == [] ==> k == 0)
  {
    if Parse(s) == Ok(p) {
      ParseSound(s, p);
    }
    if k: nat :| LegalPath(p) && ByteLen(s) <= MAX_PATH_LEN && s == Render(p) + Slashes(k) && (p == [] ==> k == 0) {
      ParseComplete(s, p, k);
    }
  }

  lemma {:induction false} ParseSound(s: string, p: Path)
    requires Parse(s) == Ok(p)
    ensures LegalPath(p) && ByteLen(s) <= MAX_PATH_LEN
    ensures exists k: nat :: s == Render(p) + Slashes(k) && (p == [] ==> k == 0)
  {
    var t := TrimEnd(s);
    var k := TrimEndShape(s);
    if t == "" {
      assert s == "";
      assert s == Render(p) + Slashes(0);
    } else {
      CheckSegmentsIff(Split(t), 0);
      RenderSplit(t);
      assert forall c :: c in t ==> c in s;
      assert s == Render(p) + Slashes(k);
    }
  }

  lemma {:induction false} ParseComplete(s: string, p: Path, k: nat)
    requires LegalPath(p) && ByteLen(s) <= MAX_PATH_LEN
    requires s == Render(p) + Slashes(k) && (p == [] ==> k == 0)
    ensures Parse(s) == Ok(p)
  {
    RenderChars(p, '\0');
    RenderChars(p, '\\');
    if p != [] {
      RenderEnds(p);
      TrimEndSlashes(Render(p), k);
      SplitRender(p);
      CheckSegmentsIff(p, 0);
    }
  }

  // ---------- parent, basename, join ----------

  // `rfind('/')`
  function LastSlash(s: string): (r: Option<nat>)
    ensures r.Some? ==> r.value < |s| && s[r.value] == '/' && '/' !in s[r.value + 1..]
    ensures r.None? ==> '/' !in s
  {
    if s == "" then None
    else
      var n := |s| - 1;
      if s[n] == '/' then Some(n)
      else
        var r := LastSlash(s[..n]);
        assert r.Some? ==> s[r.value + 1..] == s[..n][r.value + 1..] + [s[n]];
        assert s == s[..n] + [s[n]];
        r
  }

  lemma {:induction false} LastSlashAt(s: string, n: nat)
    requires n < |s| && s[n] == '/' && '/' !in s[n + 1..]
    ensures LastSlash(s) == Some(n)
  {
    if n < |s| - 1 {
      assert s[|s| - 1] == s[n + 1..][|s| - n - 2];
      assert s[n + 1..] == s[..|s| - 1][n + 1..] + [s[|s| - 1]];
      LastSlashAt(s[..|s| - 1], n);
    }
  }

  function ParentString(s: string): Option<string> {
    if s == "" then None
    else match LastSlash(s)
         case Some(i) => Some(s[..i])
         case None => Some("")
  }

  function BasenameString(s: string): string {
    match LastSlash(s)
    case Some(i) => s[i + 1..]
    case None => s
  }

  function JoinString(s: string, child: string): Result<Path, PathError> {
    if s == "" then Parse(child) else Parse(s + "/" + child)
  }

  function Parent(p: Path): Path
    requires p != []
  {
    p[..|p| - 1]
  }

  function Basename(p: Path): string {
    if p == [] then "" else p[|p| - 1]
  }

  lemma {:induction false} RenderAppend(p: Path, q: Path)
    requires p != [] && q != []
    ensures Render(p + q) == Render(p) + "/" + Render(q)
  {
    assert (p + q)[0] == p[0];
    if |p| == 1 {
      assert (p + q)[1..] == q;
    } else {
      RenderAppend(p[1..], q);
      assert (p + q)[1..] == p[1..] + q;
      assert Render(p) == p[0] + "/" + Render(p[1..]);
    }
  }

  // The string operations compute the parent and the last segment of the rendered path.
  lemma ParentAndBasename(p: Path)
    requires LegalPath(p)
    ensures p == [] ==> ParentString(Render(p)) == None && BasenameString(Render(p)) == ""
    ensures p != [] ==> ParentString(Render(p)) == Some(Render(Parent(p)))
    ensures BasenameString(Render(p)) == Basename(p)
  {
    if p != [] {
      var b := p[|p| - 1];
      var s := Render(p);
      if |p| > 1 {
        RenderAppend(Parent(p), [b]);
        assert Parent(p) + [b] == p;
        var n := |Render(Parent(p))|;
        assert s[n] == '/';
        assert s[n + 1..] == b;
        LastSlashAt(s, n);
        assert s[..n] == Render(Parent(p));
      } else {
        assert Parent(p) == [];
      }
    }
  }

  // Joining a child string onto a path appends the child's segments.
  lemma JoinAppends(p: Path, child: string, q: Path)
    requires LegalPath(p) && Parse(child) == Ok(q) && q != []
    requires p != [] ==> ByteLen(Render(p) + "/" + child) <= MAX_PATH_LEN
    ensures JoinString(Render(p), child) == Ok(p + q)
  {
    if p == [] {
      assert p + q == q;
    } else {
      RenderEnds(p);
      ParseSound(child, q);
      var k: nat :| child == Render(q) + Slashes(k) && (q == [] ==> k == 0);
      RenderAppend(p, q);
      assert Render(p) + "/" + child == Render(p + q) + Slashes(k);
      ParseComplete(Render(p) + "/" + child, p + q, k);
    }
  }

  lemma {:induction false} ByteLenConcat(a: string, b: string)
    ensures ByteLen(a + b) == ByteLen(a) + ByteLen(b)
  {
    if a == "" {
      assert a + b == b;
    } else {
      ByteLenConcat(a[1..], b);
      assert (a + b)[1..] == a[1..] + b;
    }
  }

  // `&s[n..]`: the text after the first n bytes; the program panics if that splits a character.
  function CutBytes(s: string, n: nat): Option<string> {
    if n == 0 then Some(s)
    else if s == "" || n < CharBytes(s[0]) then None
    else CutBytes(s[1..], n - CharBytes(s[0]))
  }

  lemma {:induction false} CutPrefix(a: string, t: string)
    ensures CutBytes(a + t, ByteLen(a)) == Some(t)
    decreases |a|
  {
    if a == "" {
      assert a + t == t;
    } else {
      assert (a + t)[0] == a[0] && (a + t)[1..] == a[1..] + t;
      CutPrefix(a[1..], t);
    }
  }

  // ---------- the prefix test ----------

  lemma ProperPrefix(a: Path, b: Path)
    requires a != b
    ensures a <= b <==> a < b
  {
  }

  lemma RenderInjective(p: Path, q: Path)
    requires LegalPath(p) && LegalPath(q) && Render(p) == Render(q)
    ensures p == q
  {
    if p != [] && q != [] {
      SplitRender(p);
      SplitRender(q);
    } else if p != [] {
      RenderEnds(p);
    } else if q != [] {
      RenderEnds(q);
    }
  }

  // Testing `starts_with("dir/")` on strings is testing for a proper segment prefix.
  lemma {:induction false} StartsWithIsBelow(dir: Path, p: Path)
    requires LegalPath(dir) && LegalPath(p) && dir != []
    ensures Render(dir) + "/" <= Render(p) <==> dir < p
  {
    if dir < p {
      RenderAppend(dir, p[|dir|..]);
      assert dir + p[|dir|..] == p;
      assert Render(p)[..|Render(dir) + "/"|] == Render(dir) + "/";
    }
    if Render(dir) + "/" <= Render(p) {
      var rest := Render(p)[|Render(dir)| + 1..];
      assert Render(p) == Render(dir) + "/" + rest;
      SplitConcat(dir, rest);
      assert p != [];
      SplitRender(p);
      assert p == dir + Split(rest);
    }
  }

  lemma Regroup(a: string, b: string, c: string)
    ensures (a + "/" + b) + "/" + c == a + "/" + (b + "/" + c)
  {
  }

  lemma FirstOut<T>(a: seq<T>, b: seq<T>)
    requires a != []
    ensures a + b == [a[0]] + (a[1..] + b)
  {
  }

  lemma {:induction false} SplitConcat(dir: Path, rest: string)
    requires LegalPath(dir) && dir != []
    ensures Split(Render(dir) + "/" + rest) == dir + Split(rest)
  {
    if |dir| == 1 {
      SplitHead(dir[0], rest, true);
      assert dir == [dir[0]];
    } else {
      assert forall i :: 0 <= i < |dir| - 1 ==> dir[1..][i] == dir[i + 1];
      SplitConcat(dir[1..], rest);
      var tail := Render(dir[1..]) + "/" + rest;
      SplitHead(dir[0], tail, true);
      Regroup(dir[0], Render(dir[1..]), rest);
      FirstOut(dir, Split(rest));
    }
  }
}
