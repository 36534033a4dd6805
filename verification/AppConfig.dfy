// Application settings: a database table read through a cache whose entries live 60 seconds.
// First the service called one operation at a time, then any interleaving of readers and
// writers of one setting.  Times are in nanoseconds.
module AppConfigs {
  import opened Wrappers

  const APPCONFIG_CACHE_TTL: nat := 60_000_000_000

  // What is cached for a setting; no bytes at all stand for a missing row.
  function Encode(v: Option<string>): string {
    match v
    case None => ""
    case Some(s) => s
  }

  function Decode(bytes: string): Option<string> {
    if bytes == "" then None else Some(bytes)
  }

  // A setting whose value is the empty string comes back from the cache as missing; any
  // other value comes back as it is.
  lemma DecodeIff(v: Option<string>)
    ensures Decode(Encode(v)) == v <==> v != Some("")
  {
  }

  // ---------- cache keys ----------

  function CacheKey(instance: string, appid: string, key: string): string {
    instance + ":appconfig:" + appid + ":" + key
  }

  // Without colons in application names, distinct settings have distinct cache keys.
  lemma {:induction false} CacheKeyInjective(instance: string, a: string, k: string, b: string, l: string)
    requires ':' !in a && ':' !in b && CacheKey(instance, a, k) == CacheKey(instance, b, l)
    ensures a == b && k == l
  {
    var p := instance + ":appconfig:";
    var u, v := a + ":" + k, b + ":" + l;
    assert CacheKey(instance, a, k) == p + u && CacheKey(instance, b, l) == p + v;
    assert (p + u)[|p|..] == u && (p + v)[|p|..] == v;
    assert u[|a|] == ':' && v[|b|] == ':';
    assert forall i :: 0 <= i < |a| ==> u[i] == a[i];
    assert forall i :: 0 <= i < |b| ==> v[i] == b[i];
    assert |a| == |b|;
    assert u[..|a|] == a && v[..|b|] == b && u[|a| + 1..] == k && v[|b| + 1..] == l;
  }

  // Two application names can share a cache key exactly if one continues the other with a
  // colon.
  lemma CacheKeysCollide(instance: string, a: string, b: string)
    requires a != b
    ensures (exists k, l :: CacheKey(instance, a, k) == CacheKey(instance, b, l)) <==> a + ":" <= b || b + ":" <= a
  {
    if a + ":" <= b {
      ColonCollides(instance, a, b);
    } else if b + ":" <= a {
      ColonCollides(instance, b, a);
    }
    if k, l :| CacheKey(instance, a, k) == CacheKey(instance, b, l) {
      var p := instance + ":appconfig:";
      var u, v := a + ":" + k, b + ":" + l;
      assert CacheKey(instance, a, k) == p + u && CacheKey(instance, b, l) == p + v;
      assert (p + u)[|p|..] == u && (p + v)[|p|..] == v;
      SharedText(a, k, b, l);
    }
  }

  lemma SharedText(a: string, k: string, b: string, l: string)
    requires a != b && a + ":" + k == b + ":" + l
    ensures a + ":" <= b || b + ":" <= a
  {
    var u := a + ":" + k;
    assert u[..|a| + 1] == a + ":" && u[..|b| + 1] == b + ":" && u[..|a|] == a && u[..|b|] == b;
    if |a| < |b| {
      assert u[..|b|][..|a| + 1] == u[..|a| + 1];
    } else if |b| < |a| {
      assert u[..|a|][..|b| + 1] == u[..|b| + 1];
    }
  }

  lemma ColonCollides(instance: string, a: string, b: string)
    requires a + ":" <= b
    ensures exists k, l :: CacheKey(instance, a, k) == CacheKey(instance, b, l)
    ensures exists k, l :: CacheKey(instance, b, k) == CacheKey(instance, a, l)
  {
    var rest := b[|a| + 1..];
    assert b == a + ":" + rest;
    var p := instance + ":appconfig:";
    assert p + a + ":" + (rest + ":") == p + (a + ":" + rest) + ":" + "";
    assert CacheKey(instance, a, rest + ":") == CacheKey(instance, b, "");
  }

  // ---------- the service, one call at a time ----------

  datatype CacheEntry = CacheEntry(value: string, expiresAt: Option<nat>)

  predicate Expired(e: CacheEntry, now: nat) {
    e.expiresAt.Some? && e.expiresAt.value <= now
  }

  class MemoryCache {
    var entries: map<string, CacheEntry>

    constructor ()
      ensures entries == map[]
    {
      entries := map[];
    }

    method Get(key: string, now: nat) returns (r: Option<string>)
      modifies this
      ensures r == if key in old(entries) && !Expired(old(entries)[key], now) then Some(old(entries)[key].value)
                   else None
      ensures entries == if r.None? then old(entries) - {key} else old(entries)
    {
      if key in entries && !Expired(entries[key], now) {
        return Some(entries[key].value);
      }
      entries := entries - {key};
      return None;
    }

    method Set(key: string, value: string, ttl: Option<nat>, now: nat)
      modifies this
      ensures entries == old(entries)[key := CacheEntry(value, if ttl.Some? then Some(now + ttl.value) else None)]
    {
      entries := entries[key := CacheEntry(value, if ttl.Some? then Some(now + ttl.value) else None)];
    }

    method Del(key: string)
      modifies this
      ensures entries == old(entries) - {key}
    {
      entries := entries - {key};
    }

    // Compare and set: an expired entry never matches.
    method Cas(key: string, was: string, value: string, now: nat) returns (ok: bool)
      modifies this
      ensures ok <==> key in old(entries) && !Expired(old(entries)[key], now) && old(entries)[key].value == was
      ensures entries == if ok then old(entries)[key := CacheEntry(value, None)] else old(entries)
    {
      ok := key in entries && !Expired(entries[key], now) && entries[key].value == was;
      if ok {
        entries := entries[key := CacheEntry(value, None)];
      }
    }
  }

  datatype Setting = Setting(appid: string, key: string)

  class AppConfigService {
    const instance: string
    const cache: MemoryCache
    var db: map<Setting, string>
    // The settings asked for or written so far.
    ghost var used: set<Setting>

    constructor (instance: string, cache: MemoryCache)
      requires cache.entries == map[]
      ensures this.instance == instance && this.cache == cache && db == map[] && used == {} && Coherent()
    {
      this.instance := instance;
      this.cache := cache;
      db := map[];
      used := {};
    }

    function Stored(s: Setting): Option<string>
      reads this
    {
      if s in db then Some(db[s]) else None
    }

    function KeyOf(s: Setting): string {
      CacheKey(instance, s.appid, s.key)
    }

    // Every entry of the cache holds what the database holds for a setting of that key.
    ghost predicate Coherent()
      reads this, cache
    {
      forall ck {:trigger Owned(ck)} :: ck in cache.entries ==> Owned(ck)
    }

    ghost predicate Owned(ck: string)
      requires ck in cache.entries
      reads this, cache
    {
      exists s :: s in used && KeyOf(s) == ck && cache.entries[ck].value == Encode(Stored(s))
    }

    // The value, or the "missing" that stands for a cached empty string.
    predicate Shows(r: Option<string>, s: Setting)
      reads this
    {
      r == Stored(s) || (r == None && Stored(s) == Some(""))
    }

    // The current value of a setting with that cache key - so of the setting itself, if no
    // other setting in use shares its key.
    method Get(appid: string, key: string, now: nat) returns (r: Option<string>)
      requires Coherent()
      modifies cache, this`used
      ensures Coherent() && used == old(used) + {Setting(appid, key)}
      ensures exists s :: s in used && KeyOf(s) == KeyOf(Setting(appid, key)) && Shows(r, s)
      ensures (forall s :: s in used && KeyOf(s) == KeyOf(Setting(appid, key)) ==> s == Setting(appid, key)) ==>
                Shows(r, Setting(appid, key))
    {
      var me := Setting(appid, key);
      var ck := CacheKey(instance, appid, key);
      ghost var before := cache.entries;
      assert ck in before ==> Owned(ck);
      var bytes := cache.Get(ck, now);
      used := used + {me};
      if bytes.Some? {
        assert Coherent() by {
          forall k | k in cache.entries
            ensures Owned(k)
          {
            assert k in before && old(Owned(k));
          }
        }
        ghost var s :| s in used && KeyOf(s) == ck && before[ck].value == Encode(Stored(s));
        DecodeIff(Stored(s));
        r := Decode(bytes.value);
        assert Shows(r, s);
        return;
      }
      r := Stored(me);
      cache.Set(ck, Encode(r), Some(APPCONFIG_CACHE_TTL), now);
      assert KeyOf(me) == ck;
      forall k | k in cache.entries
        ensures Owned(k)
      {
        if k != ck {
          assert k in before && old(Owned(k));
        }
      }
      assert Shows(r, me);
    }

    method Set(appid: string, key: string, value: string)
      requires Coherent()
      modifies this`db, this`used, cache
      ensures Coherent() && db == old(db)[Setting(appid, key) := value] && used == old(used) + {Setting(appid, key)}
    {
      var me := Setting(appid, key);
      ghost var before := cache.entries;
      db := db[me := value];
      used := used + {me};
      cache.Del(CacheKey(instance, appid, key));
      forall k | k in cache.entries
        ensures Owned(k)
      {
        assert k in before && k != KeyOf(me) && old(Owned(k));
        ghost var s :| s in old(used) && KeyOf(s) == k && before[k].value == Encode(old(Stored(s)));
        assert s != me && Stored(s) == old(Stored(s));
      }
    }
  }

  // ---------- one setting, any interleaving ----------

  // A value the database held from `at` on.
  datatype Version = Version(at: nat, value: Option<string>)

  // A reader that has missed the cache, and then one that has read the database.
  datatype Reader = Missed | Got(value: Option<string>, at: nat, version: nat)

  datatype Filled = Filled(bytes: string, fetchedAt: nat, filledAt: nat, version: nat)

  // Readers between miss and fill, writers between write and invalidation; the last version
  // is the current one.
  datatype System = System(now: nat, versions: seq<Version>, cache: Option<Filled>, readers: map<nat, Reader>,
                           writers: set<nat>)

  datatype Action =
    | Wait(d: nat)
    | Write(w: nat, value: string)
    | Invalidate(w: nat, works: bool)
    | Hit
    | Miss(r: nat)
    | Fetch(r: nat)
    | Fill(r: nat, works: bool)

  predicate Fresh(s: System) {
    s.cache.Some? && s.now < s.cache.value.filledAt + APPCONFIG_CACHE_TTL
  }

  function Last(s: System): nat
    requires s.versions != []
  {
    |s.versions| - 1
  }

  function Db(s: System): Option<string>
    requires s.versions != []
  {
    s.versions[Last(s)].value
  }

  predicate Enabled(s: System, a: Action) {
    && s.versions != []
    && match a
       case Wait(_) => true
       case Write(w, _) => w !in s.writers
       case Invalidate(w, _) => w in s.writers
       case Hit => Fresh(s)
       case Miss(r) => !Fresh(s) && r !in s.readers
       case Fetch(r) => r in s.readers && s.readers[r].Missed?
       case Fill(r, _) => r in s.readers && s.readers[r].Got?
  }

  function Apply(s: System, a: Action): System
    requires Enabled(s, a)
  {
    match a
    case Wait(d) => s.(now := s.now + d)
    case Write(w, value) => s.(versions := s.versions + [Version(s.now, Some(value))], writers := s.writers + {w})
    case Invalidate(w, works) => s.(cache := if works then None else s.cache, writers := s.writers - {w})
    case Hit => s
    // An expired entry is dropped on the way.
    case Miss(r) => s.(cache := None, readers := s.readers[r := Missed])
    case Fetch(r) => s.(readers := s.readers[r := Got(Db(s), s.now, Last(s))])
    case Fill(r, works) =>
      var f := s.readers[r];
      s.(cache := if works then Some(Filled(Encode(f.value), f.at, s.now, f.version)) else s.cache,
         readers := s.readers - {r})
  }

  // What a reader gets.
  function Answer(s: System, a: Action): Option<string>
    requires Enabled(s, a) && (a.Hit? || a.Fill?)
  {
    match a
    case Hit => Decode(s.cache.value.bytes)
    case Fill(r, _) => s.readers[r].value
  }

  // Version i has the value, and was the database's at some point of instant t.
  predicate VersionAt(s: System, i: nat, v: Option<string>, t: nat) {
    i < |s.versions| && s.versions[i].value == v && s.versions[i].at <= t &&
      (i + 1 < |s.versions| ==> t <= s.versions[i + 1].at)
  }

  ghost predicate HeldAt(s: System, v: Option<string>, t: nat) {
    exists i :: VersionAt(s, i, v, t)
  }

  ghost predicate ReaderRight(s: System, r: Reader) {
    r.Got? ==> VersionAt(s, r.version, r.value, r.at) && r.at <= s.now
  }

  ghost predicate EntryRight(s: System, e: Filled) {
    && e.version < |s.versions| && VersionAt(s, e.version, s.versions[e.version].value, e.fetchedAt)
    && e.bytes == Encode(s.versions[e.version].value) && e.fetchedAt <= e.filledAt <= s.now
  }

  ghost predicate Inv(s: System) {
    && s.versions != [] && (forall i :: 0 <= i < |s.versions| ==> s.versions[i].at <= s.now)
    && (s.cache.Some? ==> EntryRight(s, s.cache.value))
    && (forall r :: r in s.readers ==> ReaderRight(s, s.readers[r]))
  }

  lemma StepInv(s: System, a: Action)
    requires Inv(s) && Enabled(s, a)
    ensures Inv(Apply(s, a))
  {
    var s' := Apply(s, a);
    forall r | r in s'.readers
      ensures ReaderRight(s', s'.readers[r])
    {
      StepReader(s, a, r);
    }
    if s'.cache.Some? {
      StepEntry(s, a);
    }
  }

  lemma StepReader(s: System, a: Action, r: nat)
    requires Inv(s) && Enabled(s, a) && r in Apply(s, a).readers
    ensures ReaderRight(Apply(s, a), Apply(s, a).readers[r])
  {
    if r in s.readers {
      assert ReaderRight(s, s.readers[r]);
    }
  }

  lemma StepEntry(s: System, a: Action)
    requires Inv(s) && Enabled(s, a) && Apply(s, a).cache.Some?
    ensures EntryRight(Apply(s, a), Apply(s, a).cache.value)
  {
    if a.Fill? {
      assert ReaderRight(s, s.readers[a.r]);
    }
  }

  ghost predicate AllEnabled(s: System, run: seq<Action>)
    decreases |run|
  {
    run == [] || (Enabled(s, run[0]) && AllEnabled(Apply(s, run[0]), run[1..]))
  }

  ghost function Run(s: System, run: seq<Action>): System
    requires AllEnabled(s, run)
    decreases |run|
  {
    if run == [] then s else Run(Apply(s, run[0]), run[1..])
  }

  lemma {:induction false} RunInv(s: System, run: seq<Action>)
    requires Inv(s) && AllEnabled(s, run)
    ensures Inv(Run(s, run))
    decreases |run|
  {
    if run != [] {
      StepInv(s, run[0]);
      RunInv(Apply(s, run[0]), run[1..]);
    }
  }

  // In any interleaving, an answer was the database's value at an instant t that is less
  // than 60 seconds plus the fetch-to-fill delay of that answer ago - unless it is the
  // missing value that stands for a cached empty string.
  lemma BoundedStaleness(s: System, run: seq<Action>, a: Action)
    requires Inv(s) && AllEnabled(s, run) && Enabled(Run(s, run), a) && (a.Hit? || a.Fill?)
    ensures
      var s' := Run(s, run);
      var answer := Answer(s', a);
      if a.Fill? then HeldAt(s', answer, s'.readers[a.r].at) && s'.readers[a.r].at <= s'.now
      else
        var f := s'.cache.value;
        && (HeldAt(s', answer, f.fetchedAt) || (answer == None && HeldAt(s', Some(""), f.fetchedAt)))
        && s'.now < f.fetchedAt + APPCONFIG_CACHE_TTL + (f.filledAt - f.fetchedAt)
  {
    RunInv(s, run);
    var s' := Run(s, run);
    if a.Hit? {
      assert EntryRight(s', s'.cache.value);
      DecodeIff(s'.versions[s'.cache.value.version].value);
    } else {
      assert ReaderRight(s', s'.readers[a.r]);
    }
  }

  // ---------- when a hit is current ----------

  // The entry, if there is one, holds what the database holds.
  predicate UpToDate(s: System)
    requires s.versions != []
  {
    s.cache.Some? ==> s.cache.value.bytes == Encode(Db(s))
  }

  // A write of another value over an entry, and a fill with another value than the database's.
  predicate Disturbs(s: System, a: Action)
    requires Enabled(s, a)
  {
    || (a.Write? && s.cache.Some? && s.cache.value.bytes != a.value)
    || (a.Fill? && a.works && Encode(s.readers[a.r].value) != Encode(Db(s)))
  }

  ghost predicate AlwaysUpToDate(s: System, run: seq<Action>)
    requires AllEnabled(s, run) && s.versions != []
    decreases |run|
  {
    UpToDate(s) && (run == [] || AlwaysUpToDate(Apply(s, run[0]), run[1..]))
  }

  ghost predicate NeverDisturbed(s: System, run: seq<Action>)
    requires AllEnabled(s, run)
    decreases |run|
  {
    run == [] || (!Disturbs(s, run[0]) && NeverDisturbed(Apply(s, run[0]), run[1..]))
  }

  // The cache holds nothing out of date throughout a run exactly if no write of another value
  // finds an entry and no fill brings another value than the current one.
  lemma {:induction false} CurrentIff(s: System, run: seq<Action>)
    requires Inv(s) && AllEnabled(s, run) && UpToDate(s)
    ensures AlwaysUpToDate(s, run) <==> NeverDisturbed(s, run)
    decreases |run|
  {
    if run != [] {
      var s' := Apply(s, run[0]);
      StepInv(s, run[0]);
      assert UpToDate(s') <==> !Disturbs(s, run[0]);
      if UpToDate(s') {
        CurrentIff(s', run[1..]);
      }
    }
  }

  // A fill from a fetch after the last write brings the current value, so that a fill can
  // disturb only if its fetch was outstanding when that write was made.
  lemma NewFillFits(s: System, r: nat, works: bool)
    requires Inv(s) && Enabled(s, Fill(r, works)) && s.readers[r].version == Last(s)
    ensures !Disturbs(s, Fill(r, works))
  {
    assert ReaderRight(s, s.readers[r]);
  }

  // The entry, if there is one, was fetched after the last write.
  predicate Latest(s: System)
    requires s.versions != []
  {
    s.cache.Some? ==> s.cache.value.version == Last(s)
  }

  lemma {:induction false} NoWriteSameLast(s: System, run: seq<Action>)
    requires Inv(s) && AllEnabled(s, run) && forall k :: 0 <= k < |run| ==> !run[k].Write?
    ensures Run(s, run).versions == s.versions
    decreases |run|
  {
    if run != [] {
      StepInv(s, run[0]);
      assert forall k :: 0 <= k < |run[1..]| ==> run[1..][k] == run[k + 1];
      NoWriteSameLast(Apply(s, run[0]), run[1..]);
    }
  }

  // Every working fill of the run comes from a fetch of the version that is current.
  ghost predicate FillsAreNew(s: System, run: seq<Action>)
    requires AllEnabled(s, run)
    decreases |run|
  {
    run == [] ||
    (s.versions != [] && (run[0].Fill? && run[0].works ==> s.readers[run[0].r].version == Last(s)) &&
     FillsAreNew(Apply(s, run[0]), run[1..]))
  }

  lemma {:induction false} StaysLatest(s: System, run: seq<Action>)
    requires Inv(s) && AllEnabled(s, run) && Latest(s) && FillsAreNew(s, run)
    requires forall k :: 0 <= k < |run| ==> !run[k].Write?
    ensures Inv(Run(s, run)) && Latest(Run(s, run))
    decreases |run|
  {
    if run != [] {
      StepInv(s, run[0]);
      assert forall k :: 0 <= k < |run[1..]| ==> run[1..][k] == run[k + 1];
      StaysLatest(Apply(s, run[0]), run[1..]);
    }
  }

  // A write, in any state; then anything but a write; then an invalidation that works; then
  // again anything but a write, with every fill from a fetch after the write: a hit is
  // exactly the value written.
  lemma HitIsCurrent(s: System, w: nat, value: string, between: seq<Action>, v: nat, rest: seq<Action>)
    requires Inv(s) && Enabled(s, Write(w, value)) && AllEnabled(Apply(s, Write(w, value)), between)
    requires Enabled(Run(Apply(s, Write(w, value)), between), Invalidate(v, true))
    requires var s2 := Apply(Run(Apply(s, Write(w, value)), between), Invalidate(v, true));
               AllEnabled(s2, rest) && FillsAreNew(s2, rest)
    requires forall k :: 0 <= k < |between| ==> !between[k].Write?
    requires forall k :: 0 <= k < |rest| ==> !rest[k].Write?
    ensures
      var s3 := Run(Apply(Run(Apply(s, Write(w, value)), between), Invalidate(v, true)), rest);
      Enabled(s3, Hit) ==>
        Db(s3) == Some(value) && Answer(s3, Hit) == Decode(value) && (value != "" ==> Answer(s3, Hit) == Some(value))
  {
    var s0 := Apply(s, Write(w, value));
    StepInv(s, Write(w, value));
    RunInv(s0, between);
    NoWriteSameLast(s0, between);
    var s1 := Run(s0, between);
    var s2 := Apply(s1, Invalidate(v, true));
    StepInv(s1, Invalidate(v, true));
    StaysLatest(s2, rest);
    NoWriteSameLast(s2, rest);
    var s3 := Run(s2, rest);
    if Enabled(s3, Hit) {
      assert EntryRight(s3, s3.cache.value);
    }
  }

  // The fetches that are not new are those outstanding when the last write was made.
  lemma {:induction false} OldFetchWasOutstanding(s: System, run: seq<Action>, r: nat)
    requires Inv(s) && AllEnabled(s, run) && forall k :: 0 <= k < |run| ==> !run[k].Write?
    requires r in Run(s, run).readers && Run(s, run).readers[r].Got? && Run(s, run).readers[r].version != Last(s)
    ensures r in s.readers && s.readers[r] == Run(s, run).readers[r]
    decreases |run|
  {
    if run != [] {
      var s' := Apply(s, run[0]);
      StepInv(s, run[0]);
      assert forall k :: 0 <= k < |run[1..]| ==> run[1..][k] == run[k + 1];
      OldFetchWasOutstanding(s', run[1..], r);
    }
  }

  // A late fill after the invalidation: the writer is done, and yet the old value is served
  // until the entry expires.
  lemma LateFill(s: System, w: nat, r: nat, value: string)
    requires Inv(s) && !Fresh(s) && w !in s.writers && r !in s.readers && Encode(Db(s)) != value && value != ""
    ensures
      var run := [Miss(r), Fetch(r), Write(w, value), Invalidate(w, true), Fill(r, true)];
      && AllEnabled(s, run) && Enabled(Run(s, run), Hit)
      && w !in Run(s, run).writers && Db(Run(s, run)) == Some(value) && Answer(Run(s, run), Hit) != Some(value)
  {
    var s1, s2, s3, s4 := LateFillSteps(s, w, r, value);
    FiveSteps(s, s1, s2, s3, s4, Miss(r), Fetch(r), Write(w, value), Invalidate(w, true), Fill(r, true));
    DecodeIff(Some(value));
  }

  lemma LateFillSteps(s: System, w: nat, r: nat, value: string) returns (s1: System, s2: System, s3: System, s4: System)
    requires s.versions != [] && !Fresh(s) && w !in s.writers && r !in s.readers
    ensures Enabled(s, Miss(r)) && s1 == Apply(s, Miss(r))
    ensures Enabled(s1, Fetch(r)) && s2 == Apply(s1, Fetch(r))
    ensures Enabled(s2, Write(w, value)) && s3 == Apply(s2, Write(w, value))
    ensures Enabled(s3, Invalidate(w, true)) && s4 == Apply(s3, Invalidate(w, true))
    ensures Enabled(s4, Fill(r, true)) && s4.readers[r] == Got(Db(s), s.now, Last(s))
    ensures Db(s4) == Some(value) && w !in s4.writers && s4.now == s.now
  {
    s1 := Apply(s, Miss(r));
    s2 := Apply(s1, Fetch(r));
    s3 := Apply(s2, Write(w, value));
    s4 := Apply(s3, Invalidate(w, true));
  }

  lemma FiveSteps(s: System, s1: System, s2: System, s3: System, s4: System, a1: Action, a2: Action, a3: Action,
                  a4: Action, a5: Action)
    requires Enabled(s, a1) && s1 == Apply(s, a1) && Enabled(s1, a2) && s2 == Apply(s1, a2) && Enabled(s2, a3) &&
             s3 == Apply(s2, a3)
    requires Enabled(s3, a4) && s4 == Apply(s3, a4) && Enabled(s4, a5)
    ensures AllEnabled(s, [a1, a2, a3, a4, a5]) && Run(s, [a1, a2, a3, a4, a5]) == Apply(s4, a5)
  {
    assert [a1, a2, a3, a4, a5][1..] == [a2, a3, a4, a5] && [a2, a3, a4, a5][1..] == [a3, a4, a5];
    assert [a3, a4, a5][1..] == [a4, a5] && [a4, a5][1..] == [a5] && [a5][1..] == [];
    RunOfMore(s4, [a5]);
    RunOfMore(s3, [a4, a5]);
    RunOfMore(s2, [a3, a4, a5]);
    RunOfMore(s1, [a2, a3, a4, a5]);
    RunOfMore(s, [a1, a2, a3, a4, a5]);
  }

  lemma RunOfMore(s: System, run: seq<Action>)
    requires run != [] && Enabled(s, run[0]) && AllEnabled(Apply(s, run[0]), run[1..])
    ensures AllEnabled(s, run) && Run(s, run) == Run(Apply(s, run[0]), run[1..])
  {
  }
}
