// Which mount serves a path, and chunked uploads whose id names mount and target.
module Mounts {
  import opened Wrappers
  import opened Texts
  import opened StoragePaths
  import opened Base64

  datatype Mount = Mount(prefix: Path, storage: string)

  datatype FsError = MountNotFound | InvalidPath | MalformedId | UnknownMount | DestinationMismatch

  datatype Resolution = Resolution(index: nat, path: Path)

  predicate ValidPath(p: Path) {
    LegalPath(p) && ByteLen(Render(p)) <= MAX_PATH_LEN
  }

  predicate ValidMounts(mounts: seq<Mount>) {
    forall i :: 0 <= i < |mounts| ==> ValidPath(mounts[i].prefix)
  }

  predicate Distinct(mounts: seq<Mount>) {
    forall i, j :: 0 <= i < j < |mounts| ==> mounts[i].prefix != mounts[j].prefix
  }

  // ---------- lengths in bytes ----------

  // The limit counts the bytes that are encoded.
  lemma {:induction false} Utf8Length(s: string)
    ensures |Utf8(s)| == ByteLen(s)
    decreases |s|
  {
    if s != "" {
      Utf8Length(s[1..]);
    }
  }

  // Among the prefixes of one path the longer text is the deeper prefix.
  lemma DeeperIsLonger(a: Path, b: Path)
    requires LegalPath(a) && LegalPath(b) && a < b
    ensures ByteLen(Render(a)) < ByteLen(Render(b))
  {
    if a == [] {
      RenderEnds(b);
    } else {
      var rest := b[|a|..];
      assert b == a + rest;
      RenderAppend(a, rest);
      ByteLenConcat(Render(a) + "/", Render(rest));
      ByteLenConcat(Render(a), "/");
    }
  }

  // ---------- resolving ----------

  // The test on strings.
  predicate Matches(prefix: string, trimmed: string) {
    prefix == "" || trimmed == prefix || prefix + "/" <= trimmed
  }

  lemma MatchesIff(prefix: Path, p: Path)
    requires LegalPath(prefix) && LegalPath(p)
    ensures Matches(Render(prefix), Render(p)) <==> prefix <= p
  {
    if prefix != [] {
      RenderEnds(prefix);
      StartsWithIsBelow(prefix, p);
      if Render(prefix) == Render(p) {
        RenderInjective(prefix, p);
      }
      if prefix <= p && prefix != p {
        ProperPrefix(prefix, p);
      }
    }
  }

  // The mount at `i` serves the path: no other matching prefix is deeper.
  ghost predicate Deepest(mounts: seq<Mount>, p: Path, i: nat) {
    i < |mounts| && mounts[i].prefix <= p &&
      forall j :: 0 <= j < |mounts| && mounts[j].prefix <= p ==> mounts[j].prefix <= mounts[i].prefix
  }

  ghost predicate ServedAs(mounts: seq<Mount>, p: Path, prefix: Path, path: Path) {
    exists i: nat :: Deepest(mounts, p, i) && mounts[i].prefix == prefix && prefix + path == p
  }

  lemma DeepestUnique(mounts: seq<Mount>, p: Path, i: nat, j: nat)
    requires Distinct(mounts) && Deepest(mounts, p, i) && Deepest(mounts, p, j)
    ensures i == j
  {
    assert mounts[i].prefix <= mounts[j].prefix && mounts[j].prefix <= mounts[i].prefix;
    assert mounts[i].prefix == mounts[j].prefix;
  }

  method Resolve(mounts: seq<Mount>, p: Path) returns (r: Result<Resolution, FsError>)
    requires ValidPath(p) && ValidMounts(mounts)
    ensures r.Ok? <==> exists i :: 0 <= i < |mounts| && mounts[i].prefix <= p
    ensures r.Ok? ==> Deepest(mounts, p, r.value.index) && mounts[r.value.index].prefix + r.value.path == p
    ensures r.Err? ==> r.error == MountNotFound
  {
    var trimmed := Render(p);
    var best: Option<nat> := None;
    for i := 0 to |mounts|
      invariant best.Some? ==> best.value < i && mounts[best.value].prefix <= p
      invariant forall j :: 0 <= j < i && mounts[j].prefix <= p ==>
                  best.Some? && mounts[j].prefix <= mounts[best.value].prefix
    {
      MatchesIff(mounts[i].prefix, p);
      var prefix := Render(mounts[i].prefix);
      if Matches(prefix, trimmed) {
        if best.None? || ByteLen(Render(mounts[best.value].prefix)) <= ByteLen(prefix) {
          if best.Some? {
            Nested(mounts[best.value].prefix, mounts[i].prefix, p);
          }
          best := Some(i);
        } else {
          Nested(mounts[i].prefix, mounts[best.value].prefix, p);
        }
      }
    }
    if best.None? {
      return Err(MountNotFound);
    }
    var prefix := mounts[best.value].prefix;
    var suffix;
    if prefix == [] {
      suffix := trimmed;
    } else {
      var withSlash := Render(prefix) + "/";
      suffix := if withSlash <= trimmed then trimmed[|withSlash|..] else "";
    }
    SuffixParses(prefix, p, suffix);
    var path := Parse(suffix);
    return Ok(Resolution(best.value, path.value));
  }

  // Two prefixes of one path: the one that is not longer is a prefix of the other.
  lemma Nested(a: Path, b: Path, p: Path)
    requires LegalPath(a) && LegalPath(b) && a <= p && b <= p && ByteLen(Render(a)) <= ByteLen(Render(b))
    ensures a <= b
  {
    if |a| <= |b| {
      assert a == p[..|a|] && b == p[..|b|];
    } else {
      assert b < a;
      DeeperIsLonger(b, a);
    }
  }

  lemma SuffixParses(prefix: Path, p: Path, suffix: string)
    requires LegalPath(prefix) && ValidPath(p) && prefix <= p
    requires suffix == if prefix == [] then Render(p)
                       else if Render(prefix) + "/" <= Render(p) then Render(p)[|Render(prefix)| + 1..] else ""
    ensures Parse(suffix) == Ok(p[|prefix|..]) && ValidPath(p[|prefix|..]) && suffix == Render(p[|prefix|..])
  {
    var rest := p[|prefix|..];
    assert p == prefix + rest;
    if prefix != [] {
      StartsWithIsBelow(prefix, p);
      if prefix != p {
        ProperPrefix(prefix, p);
        RenderAppend(prefix, rest);
        ByteLenConcat(Render(prefix) + "/", Render(rest));
      } else {
        assert rest == [];
      }
    } else {
      assert rest == p;
    }
    assert suffix == Render(rest) + Slashes(0);
    ParseComplete(suffix, rest, 0);
  }

  // ---------- upload ids ----------

  function Field(s: string): string {
    Encode(Utf8(s))
  }

  function FieldValue(t: string): Option<string> {
    match Decode(t)
    case None => None
    case Some(b) => FromUtf8(b)
  }

  lemma FieldRoundTrip(s: string)
    ensures FieldValue(Field(s)) == Some(s) && ':' !in Field(s)
  {
    DecodeIff(Field(s), Utf8(s));
    FromUtf8Utf8(s);
  }

  function EncodeUploadId(prefix: Path, dest: Path, backend: string): string {
    Field(Render(prefix)) + [':'] + (Field(Render(dest)) + [':'] + Field(backend))
  }

  // Cut at the first two colons.
  function Parts(id: string): Option<(string, string, string)> {
    var a := UpTo(id, ':');
    if |a| == |id| then None
    else
      var more := id[|a| + 1..];
      var b := UpTo(more, ':');
      if |b| == |more| then None else Some((a, b, more[|b| + 1..]))
  }

  function FindMount(mounts: seq<Mount>, prefix: string, i: nat): (r: Option<nat>)
    requires i <= |mounts|
    ensures r.Some? ==> r.value < |mounts| && Render(mounts[r.value].prefix) == prefix
    ensures r.None? ==> forall j :: i <= j < |mounts| ==> Render(mounts[j].prefix) != prefix
    decreases |mounts| - i
  {
    if i == |mounts| then None
    else if Render(mounts[i].prefix) == prefix then Some(i)
    else FindMount(mounts, prefix, i + 1)
  }

  datatype Upload = Upload(index: nat, path: Path, backend: string)

  function DecodeUploadId(id: string, mounts: seq<Mount>): (r: Result<Upload, FsError>)
    ensures r.Ok? ==> r.value.index < |mounts|
  {
    match Parts(id)
    case None => Err(MalformedId)
    case Some((a, b, c)) =>
      match (FieldValue(a), FieldValue(b), FieldValue(c))
      case (Some(prefix), Some(dest), Some(backend)) =>
        (match (FindMount(mounts, prefix, 0), Parse(dest))
         case (Some(i), Ok(path)) => Ok(Upload(i, path, backend))
         case (None, _) => Err(UnknownMount)
         case (_, Err(_)) => Err(InvalidPath))
      case _ => Err(MalformedId)
  }

  lemma PartsOf(a: string, b: string, c: string)
    requires ':' !in a && ':' !in b
    ensures Parts(a + [':'] + (b + [':'] + c)) == Some((a, b, c))
  {
    var more := b + [':'] + c;
    var id := a + [':'] + more;
    UpToIs(a, ':', more);
    UpToIs(b, ':', c);
    assert id[|a| + 1..] == more && more[|b| + 1..] == c;
  }

  // An id decodes to what was encoded, on any list of mounts that still has the prefix.
  lemma UploadIdRoundTrip(prefix: Path, dest: Path, backend: string, mounts: seq<Mount>)
    requires LegalPath(prefix) && ValidPath(dest) && ValidMounts(mounts)
    ensures
      var r := DecodeUploadId(EncodeUploadId(prefix, dest, backend), mounts);
      && (r.Ok? <==> exists i :: 0 <= i < |mounts| && mounts[i].prefix == prefix)
      && (r.Ok? ==> mounts[r.value.index].prefix == prefix && r.value.path == dest && r.value.backend == backend)
      && (r.Err? ==> r.error == UnknownMount)
  {
    var a, b, c := Field(Render(prefix)), Field(Render(dest)), Field(backend);
    FieldRoundTrip(Render(prefix));
    FieldRoundTrip(Render(dest));
    FieldRoundTrip(backend);
    PartsOf(a, b, c);
    assert Render(dest) == Render(dest) + Slashes(0);
    ParseComplete(Render(dest), dest, 0);
    var found := FindMount(mounts, Render(prefix), 0);
    if found.Some? {
      RenderInjective(mounts[found.value].prefix, prefix);
    }
  }

  // A commit that reached the backend.
  datatype Commit = Commit(storage: string, path: Path, backend: string)

  class Uploads {
    const mounts: seq<Mount>
    var commits: seq<Commit>

    ghost predicate Valid() {
      ValidMounts(mounts)
    }

    constructor (mounts: seq<Mount>)
      requires ValidMounts(mounts)
      ensures this.mounts == mounts && commits == [] && Valid()
    {
      this.mounts := mounts;
      commits := [];
    }

    // `backend` is the id the storage gives the new upload.
    method Begin(destination: Path, backend: string) returns (r: Result<string, FsError>)
      requires Valid() && ValidPath(destination)
      ensures r.Ok? <==> exists i: nat :: Deepest(mounts, destination, i)
      ensures r.Ok? ==> exists i: nat ::
                          Deepest(mounts, destination, i) &&
                          r.value == EncodeUploadId(mounts[i].prefix, destination[|mounts[i].prefix|..], backend)
    {
      var resolved := Resolve(mounts, destination);
      if resolved.Err? {
        return Err(resolved.error);
      }
      return Ok(EncodeUploadId(mounts[resolved.value.index].prefix, resolved.value.path, backend));
    }

    // Whether the id, the mounts of now and the destination of now fit together.
    ghost predicate Accepts(id: string, destination: Path) {
      var u := DecodeUploadId(id, mounts);
      u.Ok? && ServedAs(mounts, destination, mounts[u.value.index].prefix, u.value.path)
    }

    method CommitUpload(id: string, destination: Path) returns (r: Result<Path, FsError>)
      requires Valid() && ValidPath(destination)
      modifies this
      ensures r.Ok? <==> Accepts(id, destination)
      ensures commits == if r.Ok? then
                           var u := DecodeUploadId(id, mounts).value;
                           old(commits) + [Commit(mounts[u.index].storage, u.path, u.backend)]
                         else old(commits)
      ensures r.Ok? ==> r.value == DecodeUploadId(id, mounts).value.path &&
                        mounts[DecodeUploadId(id, mounts).value.index].prefix + r.value == destination
      ensures r.Err? && DecodeUploadId(id, mounts).Ok? ==>
                r.error == if exists i :: 0 <= i < |mounts| && mounts[i].prefix <= destination
                           then DestinationMismatch else MountNotFound
    {
      var u := DecodeUploadId(id, mounts);
      if u.Err? {
        return Err(u.error);
      }
      var dest := Resolve(mounts, destination);
      if dest.Err? {
        return Err(dest.error);
      }
      var prefix := mounts[u.value.index].prefix;
      ServedIff(mounts, destination, dest.value, prefix, u.value.path);
      if mounts[dest.value.index].prefix != prefix || dest.value.path != u.value.path {
        return Err(DestinationMismatch);
      }
      commits := commits + [Commit(mounts[u.value.index].storage, u.value.path, u.value.backend)];
      return Ok(u.value.path);
    }
  }

  // All deepest mounts of a path have the same prefix.
  lemma ServedIff(mounts: seq<Mount>, p: Path, r: Resolution, prefix: Path, path: Path)
    requires Deepest(mounts, p, r.index) && mounts[r.index].prefix + r.path == p
    ensures ServedAs(mounts, p, prefix, path) <==> mounts[r.index].prefix == prefix && r.path == path
  {
    if ServedAs(mounts, p, prefix, path) {
      var i: nat :| Deepest(mounts, p, i) && mounts[i].prefix == prefix && prefix + path == p;
      assert mounts[i].prefix <= mounts[r.index].prefix && mounts[r.index].prefix <= mounts[i].prefix;
      assert path == p[|prefix|..] && r.path == p[|prefix|..];
    }
  }

  // The id of an upload begun at one destination is accepted - by the same mounts - at that
  // destination and at no other.
  lemma AcceptedIffSame(u: Uploads, begun: Path, i: nat, backend: string, destination: Path)
    requires u.Valid() && ValidPath(begun) && ValidPath(destination) && Deepest(u.mounts, begun, i)
    ensures
      var id := EncodeUploadId(u.mounts[i].prefix, begun[|u.mounts[i].prefix|..], backend);
      u.Accepts(id, destination) <==> destination == begun
  {
    var prefix := u.mounts[i].prefix;
    var rest := begun[|prefix|..];
    assert begun == prefix + rest;
    SuffixValid(prefix, begun);
    UploadIdRoundTrip(prefix, rest, backend, u.mounts);
    if u.Accepts(EncodeUploadId(prefix, rest, backend), destination) {
      assert destination == prefix + rest;
    }
  }

  lemma SuffixValid(prefix: Path, p: Path)
    requires LegalPath(prefix) && ValidPath(p) && prefix <= p
    ensures ValidPath(p[|prefix|..])
  {
    var s := if prefix == [] then Render(p)
             else if Render(prefix) + "/" <= Render(p) then Render(p)[|Render(prefix)| + 1..] else "";
    SuffixParses(prefix, p, s);
  }
}
