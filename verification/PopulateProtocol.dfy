// Cache-miss populate under concurrency: any number of tasks, interleaved step by step,
// with one lock object per path and a table of locks that tasks clean up behind them.
module PopulateProtocol {
  import opened Wrappers
  import opened StoragePaths

  // One `Arc<Mutex<()>>`: the key it was created for and a serial number as its identity.
  datatype Lock = Lock(path: Path, serial: nat)

  // Where one call of `stat_inner` is.  Every state with a lock holds a clone of the Arc.
  datatype Pc =
    | Start
    | Missed                     // the fast path found nothing
    | Waiting(lock: Lock)        // cloned the Arc, wants the guard
    | Locked(lock: Lock)         // has the guard, about to look again
    | Asking(lock: Lock)         // still missing, asks the backend
    | Ascending(lock: Lock)      // waits for the call on the parent to return
    | Applying(lock: Lock)
    | Applied(lock: Lock)
    | Cleaning(lock: Lock)       // the guard is dropped
    | Removing(lock: Lock)       // has seen a low count, has not removed the entry yet

  datatype Frame = Frame(path: Path, pc: Pc)

  // A task is its stack of calls, the innermost last.
  datatype State = State(tasks: map<nat, seq<Frame>>, cached: set<Path>, table: map<Path, Lock>, serial: nat)

  datatype Action =
    | Spawn(task: nat, path: Path)
    | Advance(task: nat, ok: bool)   // `ok`: what the backend, the inner call or the database said
    | Evict(gone: set<Path>)         // rows removed by other events
    | Appear(added: set<Path>)       // rows inserted by other events, which take no lock

  const INIT := State(map[], {}, map[], 0)

  // ---------- steps ----------

  function ArcOf(f: Frame): Option<Lock> {
    if f.pc.Start? || f.pc.Missed? then None else Some(f.pc.lock)
  }

  // The lock whose guard the frame has.
  function HeldBy(f: Frame): Option<Lock> {
    if f.pc.Locked? || f.pc.Asking? || f.pc.Ascending? || f.pc.Applying? || f.pc.Applied? then Some(f.pc.lock) else None
  }

  predicate At(s: State, t: nat, i: int) {
    t in s.tasks && 0 <= i < |s.tasks[t]|
  }

  ghost predicate Free(s: State, l: Lock) {
    forall t, i {:trigger s.tasks[t][i]} :: At(s, t, i) ==> HeldBy(s.tasks[t][i]) != Some(l)
  }

  ghost function Arcs(s: State, l: Lock): set<(nat, int)> {
    set t, i | t in s.tasks && 0 <= i < |s.tasks[t]| && ArcOf(s.tasks[t][i]) == Some(l) :: (t, i)
  }

  // `Arc::strong_count`: the clones the tasks hold, and the table's.
  ghost function StrongCount(s: State, l: Lock): nat {
    |Arcs(s, l)| + if l in s.table.Values then 1 else 0
  }

  predicate Busy(s: State, t: nat) {
    t in s.tasks && s.tasks[t] != []
  }

  function Top(s: State, t: nat): Frame
    requires Busy(s, t)
  {
    s.tasks[t][|s.tasks[t]| - 1]
  }

  // Replace the top frame of a task by the given frames.
  function WithTop(s: State, t: nat, frames: seq<Frame>): State
    requires Busy(s, t)
  {
    s.(tasks := s.tasks[t := s.tasks[t][..|s.tasks[t]| - 1] + frames])
  }

  // Only a wanted guard can make a task wait.
  ghost predicate Enabled(s: State, a: Action) {
    match a
    case Spawn(t, _) => !Busy(s, t)
    case Advance(t, _) => Busy(s, t) && (Top(s, t).pc.Waiting? ==> Free(s, Top(s, t).pc.lock))
    case Evict(_) => true
    case Appear(_) => true
  }

  // What the top frame becomes.
  ghost function NextFrames(atomic: bool, s: State, f: Frame, ok: bool): seq<Frame> {
    match f.pc
    case Start => if f.path in s.cached then [] else [f.(pc := Missed)]
    case Missed => [f.(pc := Waiting(if f.path in s.table then s.table[f.path] else Lock(f.path, s.serial)))]
    case Waiting(l) => [f.(pc := Locked(l))]
    case Locked(l) => [f.(pc := if f.path in s.cached then Cleaning(l) else Asking(l))]
    case Asking(l) =>
      if !ok then [f.(pc := Cleaning(l))]
      else if |f.path| > 1 then [f.(pc := Ascending(l)), Frame(Parent(f.path), Start)]
      else [f.(pc := Applying(l))]
    case Ascending(l) => if ok then [f.(pc := Applying(l))] else []
    case Applying(l) => if ok then [f.(pc := Applied(l))] else []
    case Applied(l) => [f.(pc := Cleaning(l))]
    case Cleaning(l) => if StrongCount(s, l) <= 2 && !atomic then [f.(pc := Removing(l))] else []
    case Removing(l) => []
  }

  ghost predicate RemovesEntry(atomic: bool, s: State, f: Frame) {
    f.pc.Removing? || (f.pc.Cleaning? && atomic && StrongCount(s, f.pc.lock) <= 2)
  }

  // What the step of frame `f` does to the cache and the lock table.
  ghost function Shared(atomic: bool, s: State, f: Frame, ok: bool): State {
    if f.pc.Missed? && f.path !in s.table
    then s.(table := s.table[f.path := Lock(f.path, s.serial)], serial := s.serial + 1)
    else if f.pc.Applying? && ok then s.(cached := s.cached + {f.path})
    else if RemovesEntry(atomic, s, f) then s.(table := s.table - {f.path})
    else s
  }

  // With `atomic` the count check and the removal are one step; in the program they are two.
  ghost function Do(atomic: bool, s: State, a: Action): State
    requires Enabled(s, a)
  {
    match a
    case Spawn(t, p) => s.(tasks := s.tasks[t := [Frame(p, Start)]])
    case Evict(gone) => s.(cached := s.cached - gone)
    case Appear(added) => s.(cached := s.cached + added)
    case Advance(t, ok) =>
      var f := Top(s, t);
      Shared(atomic, s, f, ok).(tasks := WithTop(s, t, NextFrames(atomic, s, f, ok)).tasks)
  }

  ghost predicate Runs(atomic: bool, s: State, acts: seq<Action>)
    decreases |acts|
  {
    acts == [] || (Enabled(s, acts[0]) && Runs(atomic, Do(atomic, s, acts[0]), acts[1..]))
  }

  ghost function After(atomic: bool, s: State, acts: seq<Action>): State
    requires Runs(atomic, s, acts)
    decreases |acts|
  {
    if acts == [] then s else After(atomic, Do(atomic, s, acts[0]), acts[1..])
  }

  // ---------- what we want ----------

  // At most one call is between lock and apply for a given path.
  ghost predicate Exclusive(s: State) {
    forall t, i, u, j {:trigger s.tasks[t][i], s.tasks[u][j]} ::
      (At(s, t, i) && At(s, u, j) && HeldBy(s.tasks[t][i]).Some? && HeldBy(s.tasks[u][j]).Some? &&
       s.tasks[t][i].path == s.tasks[u][j].path) ==> t == u && i == j
  }

  // ---------- invariants of both variants ----------

  // A call below the top waits for the call on its parent.
  ghost predicate Stacked(st: seq<Frame>) {
    forall i :: 0 <= i < |st| - 1 ==> st[i].pc.Ascending? && |st[i].path| > 1 && st[i + 1].path == Parent(st[i].path)
  }

  ghost predicate FrameTagged(s: State, f: Frame) {
    ArcOf(f).Some? ==> ArcOf(f).value.path == f.path && ArcOf(f).value.serial < s.serial
  }

  ghost predicate Tagged(s: State) {
    && (forall t, i {:trigger s.tasks[t][i]} :: At(s, t, i) ==> FrameTagged(s, s.tasks[t][i]))
    && (forall p :: p in s.table ==> s.table[p].path == p && s.table[p].serial < s.serial)
  }

  // One guard per lock object.
  ghost predicate OneGuard(s: State) {
    forall t, i, u, j {:trigger s.tasks[t][i], s.tasks[u][j]} ::
      (At(s, t, i) && At(s, u, j) && HeldBy(s.tasks[t][i]).Some? && HeldBy(s.tasks[t][i]) == HeldBy(s.tasks[u][j]))
      ==> t == u && i == j
  }

  ghost predicate Inv(s: State) {
    (forall t :: t in s.tasks ==> Stacked(s.tasks[t])) && Tagged(s) && OneGuard(s)
  }

  // ---------- the extra invariant of the atomic cleanup ----------

  // Every Arc a call holds is the one in the table.
  ghost predicate Current(s: State) {
    forall t, i {:trigger s.tasks[t][i]} :: At(s, t, i) && ArcOf(s.tasks[t][i]).Some? ==>
      s.tasks[t][i].path in s.table && ArcOf(s.tasks[t][i]) == Some(s.table[s.tasks[t][i].path])
  }

  lemma CurrentIsExclusive(s: State)
    requires OneGuard(s) && Current(s)
    ensures Exclusive(s)
  {
    forall t, i, u, j | At(s, t, i) && At(s, u, j) && HeldBy(s.tasks[t][i]).Some? && HeldBy(s.tasks[u][j]).Some? &&
                        s.tasks[t][i].path == s.tasks[u][j].path
      ensures t == u && i == j
    {
      assert HeldBy(s.tasks[t][i]) == ArcOf(s.tasks[t][i]) && HeldBy(s.tasks[u][j]) == ArcOf(s.tasks[u][j]);
    }
  }

  // ---------- preservation ----------

  // The frames of the state after `t` moved: those of other tasks, those below the top, and
  // the ones that replaced the top.
  lemma FramesAfter(atomic: bool, s: State, a: Action, t: nat, i: int)
    requires Enabled(s, a) && a.Advance? && At(Do(atomic, s, a), t, i)
    ensures
      var s' := Do(atomic, s, a);
      var n := |s.tasks[a.task]| - 1;
      var frames := NextFrames(atomic, s, Top(s, a.task), a.ok);
      if t == a.task && i >= n then i - n < |frames| && s'.tasks[t][i] == frames[i - n]
      else At(s, t, i) && s'.tasks[t][i] == s.tasks[t][i]
  {
  }

  // A frame takes a guard only when the lock is free, and otherwise keeps or drops its own.
  lemma GuardsAfter(atomic: bool, s: State, a: Action, t: nat, i: int)
    requires Enabled(s, a) && a.Advance? && At(Do(atomic, s, a), t, i)
    requires HeldBy(Do(atomic, s, a).tasks[t][i]).Some?
    ensures At(s, t, i)
    ensures HeldBy(s.tasks[t][i]) == HeldBy(Do(atomic, s, a).tasks[t][i]) ||
            (t == a.task && i == |s.tasks[t]| - 1 && Free(s, HeldBy(Do(atomic, s, a).tasks[t][i]).value))
  {
    FramesAfter(atomic, s, a, t, i);
  }

  lemma OneGuardStep(atomic: bool, s: State, a: Action)
    requires OneGuard(s) && Enabled(s, a)
    ensures OneGuard(Do(atomic, s, a))
  {
    var s' := Do(atomic, s, a);
    forall t, i, u, j | At(s', t, i) && At(s', u, j) && HeldBy(s'.tasks[t][i]).Some? &&
                        HeldBy(s'.tasks[t][i]) == HeldBy(s'.tasks[u][j])
      ensures t == u && i == j
    {
      if a.Advance? {
        GuardsAfter(atomic, s, a, t, i);
        GuardsAfter(atomic, s, a, u, j);
      }
    }
  }

  lemma TaggedStep(atomic: bool, s: State, a: Action)
    requires Tagged(s) && Enabled(s, a)
    ensures Tagged(Do(atomic, s, a))
  {
    var s' := Do(atomic, s, a);
    forall t, i | At(s', t, i)
      ensures FrameTagged(s', s'.tasks[t][i])
    {
      if a.Advance? {
        FramesAfter(atomic, s, a, t, i);
        assert FrameTagged(s, Top(s, a.task));
      }
    }
  }

  lemma StackedStep(atomic: bool, s: State, a: Action)
    requires (forall t :: t in s.tasks ==> Stacked(s.tasks[t])) && Enabled(s, a)
    ensures forall t :: t in Do(atomic, s, a).tasks ==> Stacked(Do(atomic, s, a).tasks[t])
  {
    if a.Advance? {
      StackedReplace(s.tasks[a.task], NextFrames(atomic, s, Top(s, a.task), a.ok));
    }
  }

  lemma StackedReplace(st: seq<Frame>, frames: seq<Frame>)
    requires st != [] && Stacked(st) && Stacked(frames)
    requires frames != [] ==> frames[0].path == st[|st| - 1].path
    ensures Stacked(st[..|st| - 1] + frames)
  {
    var n := |st| - 1;
    var st' := st[..n] + frames;
    forall i | 0 <= i < |st'| - 1
      ensures st'[i].pc.Ascending? && |st'[i].path| > 1 && st'[i + 1].path == Parent(st'[i].path)
    {
      if i < n {
        assert st'[i] == st[i] && st'[i + 1].path == st[i + 1].path;
      } else {
        assert st'[i] == frames[i - n] && st'[i + 1] == frames[i - n + 1];
      }
    }
  }

  lemma StepInv(atomic: bool, s: State, a: Action)
    requires Inv(s) && Enabled(s, a)
    ensures Inv(Do(atomic, s, a))
  {
    StackedStep(atomic, s, a);
    TaggedStep(atomic, s, a);
    OneGuardStep(atomic, s, a);
  }

  // Two clones besides the table's make the count three.
  lemma CountAtLeastThree(s: State, l: Lock, x: (nat, int), y: (nat, int))
    requires x in Arcs(s, l) && y in Arcs(s, l) && x != y && l in s.table.Values
    ensures StrongCount(s, l) >= 3
  {
    var rest := Arcs(s, l) - {x} - {y};
    assert Arcs(s, l) == rest + {x} + {y};
  }

  // An entry is removed only when the remover holds the last clone.
  lemma RemovalIsLast(s: State, t: nat, u: nat, j: int)
    requires Tagged(s) && Current(s) && Busy(s, t) && RemovesEntry(true, s, Top(s, t)) && !Top(s, t).pc.Removing?
    requires At(s, u, j) && ArcOf(s.tasks[u][j]).Some? && s.tasks[u][j].path == Top(s, t).path
    ensures u == t && j == |s.tasks[t]| - 1
  {
    var n := |s.tasks[t]| - 1;
    var f := s.tasks[t][n];
    var l := f.pc.lock;
    assert ArcOf(f) == Some(s.table[f.path]);
    assert s.table[f.path] == l && f.path in s.table;
    assert (t, n) in Arcs(s, l) && (u, j) in Arcs(s, l);
    if (u, j) != (t, n) {
      CountAtLeastThree(s, l, (t, n), (u, j));
    }
  }

  // No call is ever in the two-step removal when the cleanup is atomic.
  ghost predicate NoRemoving(s: State) {
    forall t, i {:trigger s.tasks[t][i]} :: At(s, t, i) ==> !s.tasks[t][i].pc.Removing?
  }

  lemma CurrentStep(s: State, a: Action)
    requires Tagged(s) && Current(s) && NoRemoving(s) && Enabled(s, a)
    ensures Current(Do(true, s, a)) && NoRemoving(Do(true, s, a))
  {
    var s' := Do(true, s, a);
    forall t, i | At(s', t, i)
      ensures !s'.tasks[t][i].pc.Removing?
      ensures ArcOf(s'.tasks[t][i]).Some? ==>
                s'.tasks[t][i].path in s'.table && ArcOf(s'.tasks[t][i]) == Some(s'.table[s'.tasks[t][i].path])
    {
      if a.Advance? {
        FramesAfter(true, s, a, t, i);
        var n := |s.tasks[a.task]| - 1;
        if RemovesEntry(true, s, Top(s, a.task)) && At(s, t, i) && ArcOf(s.tasks[t][i]).Some? &&
           s.tasks[t][i].path == Top(s, a.task).path {
          RemovalIsLast(s, a.task, t, i);
        }
      }
    }
  }

  // ---------- whole runs ----------

  lemma {:induction false} RunInv(atomic: bool, s: State, acts: seq<Action>)
    requires Inv(s) && Runs(atomic, s, acts)
    ensures Inv(After(atomic, s, acts))
    ensures atomic && Current(s) && NoRemoving(s) ==>
              Current(After(atomic, s, acts)) && NoRemoving(After(atomic, s, acts))
    decreases |acts|
  {
    if acts != [] {
      StepInv(atomic, s, acts[0]);
      if atomic && Current(s) && NoRemoving(s) {
        CurrentStep(s, acts[0]);
      }
      RunInv(atomic, Do(atomic, s, acts[0]), acts[1..]);
    }
  }

  // In every interleaving, if the count check and the removal are one step, at most one
  // call is between lock and apply for any path, cleanup notwithstanding.
  lemma AtomicCleanupExclusive(acts: seq<Action>)
    requires Runs(true, INIT, acts)
    ensures Exclusive(After(true, INIT, acts))
  {
    RunInv(true, INIT, acts);
    CurrentIsExclusive(After(true, INIT, acts));
  }

  // ---------- no deadlock ----------

  // Every path a task holds a guard for is the path at its top or lies strictly below it.
  lemma {:induction false} StackDescends(st: seq<Frame>, i: nat)
    requires Stacked(st) && i < |st|
    ensures |st[|st| - 1].path| <= |st[i].path|
    ensures i < |st| - 1 ==> st[|st| - 1].path < st[i].path
    decreases |st| - i
  {
    if i < |st| - 1 {
      StackDescends(st, i + 1);
      assert st[i + 1].path == Parent(st[i].path) && Parent(st[i].path) < st[i].path;
    }
  }

  // A task waits only for the lock of a proper ancestor of every path it holds.
  lemma WaitsUpwards(s: State, t: nat, i: nat)
    requires Inv(s) && Busy(s, t) && Top(s, t).pc.Waiting? && i < |s.tasks[t]| && HeldBy(s.tasks[t][i]).Some?
    ensures Top(s, t).path < s.tasks[t][i].path && Top(s, t).pc.lock.path == Top(s, t).path
  {
    StackDescends(s.tasks[t], i);
    assert FrameTagged(s, s.tasks[t][|s.tasks[t]| - 1]);
  }

  // The lock a task waits for is held by a call of a task of `d`.
  ghost predicate WaitsFor(s: State, t: nat, d: set<nat>)
    requires Busy(s, t)
  {
    Top(s, t).pc.Waiting? && exists v, i {:trigger s.tasks[v][i]} ::
      v in d && At(s, v, i) && HeldBy(s.tasks[v][i]) == Some(Top(s, t).pc.lock)
  }

  // Among waiting tasks, the holder of the lock one waits for waits for a shorter path.
  lemma {:induction false} SomeMemberMoves(s: State, d: set<nat>, t: nat) returns (u: nat)
    requires Inv(s) && t in d && forall v :: v in d ==> Busy(s, v)
    ensures u in d && !WaitsFor(s, u, d)
    decreases |Top(s, t).path|
  {
    if WaitsFor(s, t, d) {
      var l := Top(s, t).pc.lock;
      assert FrameTagged(s, s.tasks[t][|s.tasks[t]| - 1]);
      var v, i :| v in d && At(s, v, i) && HeldBy(s.tasks[v][i]) == Some(l);
      assert FrameTagged(s, s.tasks[v][i]);
      if WaitsFor(s, v, d) {
        WaitsUpwards(s, v, i);
        u := SomeMemberMoves(s, d, v);
      } else {
        u := v;
      }
    } else {
      u := t;
    }
  }

  // No set of tasks deadlocks, in any reachable state of either variant: in every set of
  // unfinished tasks there is one that waits for no lock held within the set.
  lemma NoSetDeadlocks(atomic: bool, acts: seq<Action>, d: set<nat>)
    requires Runs(atomic, INIT, acts) && d != {} && forall t :: t in d ==> Busy(After(atomic, INIT, acts), t)
    ensures exists u :: u in d && !WaitsFor(After(atomic, INIT, acts), u, d)
  {
    RunInv(atomic, INIT, acts);
    var t :| t in d;
    var u := SomeMemberMoves(After(atomic, INIT, acts), d, t);
  }

  // In particular some unfinished task can take a step.
  lemma NoDeadlock(atomic: bool, acts: seq<Action>, t: nat)
    requires Runs(atomic, INIT, acts) && Busy(After(atomic, INIT, acts), t)
    ensures exists u :: Busy(After(atomic, INIT, acts), u) && Enabled(After(atomic, INIT, acts), Advance(u, true))
  {
    var s := After(atomic, INIT, acts);
    var d := set u | u in s.tasks && Busy(s, u);
    assert t in d;
    NoSetDeadlocks(atomic, acts, d);
    var u :| u in d && !WaitsFor(s, u, d);
    forall v, i | At(s, v, i)
      ensures Top(s, u).pc.Waiting? ==> HeldBy(s.tasks[v][i]) != Some(Top(s, u).pc.lock)
    {
      assert v in d;
    }
    assert Enabled(s, Advance(u, true));
  }

  // ---------- one apply per path ----------

  // The paths other events have inserted, and not removed again, since populate last looked
  // for them under the lock and found nothing.
  ghost function NextInserted(s: State, a: Action, hit: set<Path>): set<Path>
    requires Enabled(s, a)
  {
    match a
    case Spawn(_, _) => hit
    case Evict(gone) => hit - gone
    case Appear(added) => hit + added
    case Advance(t, _) => if Top(s, t).pc.Locked? && Top(s, t).path !in s.cached then hit - {Top(s, t).path} else hit
  }

  ghost function Inserted(atomic: bool, s: State, acts: seq<Action>, hit: set<Path>): set<Path>
    requires Runs(atomic, s, acts)
    decreases |acts|
  {
    if acts == [] then hit else Inserted(atomic, Do(atomic, s, acts[0]), acts[1..], NextInserted(s, acts[0], hit))
  }

  predicate PastLook(f: Frame) {
    f.pc.Asking? || f.pc.Ascending? || f.pc.Applying?
  }

  // A call past the second look finds its path cached exactly if somebody else inserted it.
  ghost predicate CachedIffInserted(s: State, hit: set<Path>) {
    forall t, i {:trigger s.tasks[t][i]} :: At(s, t, i) && PastLook(s.tasks[t][i]) ==>
      (s.tasks[t][i].path in s.cached <==> s.tasks[t][i].path in hit)
  }

  lemma CachedIffInsertedStep(s: State, a: Action, hit: set<Path>)
    requires Exclusive(s) && CachedIffInserted(s, hit) && Enabled(s, a)
    ensures CachedIffInserted(Do(true, s, a), NextInserted(s, a, hit))
  {
    var s', hit' := Do(true, s, a), NextInserted(s, a, hit);
    forall t, i | At(s', t, i) && PastLook(s'.tasks[t][i])
      ensures s'.tasks[t][i].path in s'.cached <==> s'.tasks[t][i].path in hit'
    {
      if a.Advance? {
        FramesAfter(true, s, a, t, i);
        assert Top(s, a.task) == s.tasks[a.task][|s.tasks[a.task]| - 1];
      }
    }
  }

  lemma {:induction false} RunCachedIffInserted(s: State, acts: seq<Action>, hit: set<Path>)
    requires Inv(s) && Current(s) && NoRemoving(s) && CachedIffInserted(s, hit) && Runs(true, s, acts)
    ensures CachedIffInserted(After(true, s, acts), Inserted(true, s, acts, hit))
    decreases |acts|
  {
    if acts != [] {
      CurrentIsExclusive(s);
      CachedIffInsertedStep(s, acts[0], hit);
      StepInv(true, s, acts[0]);
      CurrentStep(s, acts[0]);
      RunCachedIffInserted(Do(true, s, acts[0]), acts[1..], NextInserted(s, acts[0], hit));
    }
  }

  // With the atomic cleanup what populate applies is fresh - so that it never re-creates a
  // directory - exactly if no other event has inserted the path since the second look.
  lemma AtomicApplyIsFresh(acts: seq<Action>, t: nat)
    requires Runs(true, INIT, acts) && Busy(After(true, INIT, acts), t) && Top(After(true, INIT, acts), t).pc.Applying?
    ensures
      var s := After(true, INIT, acts);
      Top(s, t).path !in s.cached <==> Top(s, t).path !in Inserted(true, INIT, acts, {})
  {
    RunCachedIffInserted(INIT, acts, {});
    var s := After(true, INIT, acts);
    assert At(s, t, |s.tasks[t]| - 1);
  }

  // Without insertions by others it is always fresh: concurrent callers apply a path once.
  lemma {:induction false} NothingInserted(atomic: bool, s: State, acts: seq<Action>, p: Path, hit: set<Path>)
    requires Runs(atomic, s, acts) && p !in hit
    requires forall k :: 0 <= k < |acts| && acts[k].Appear? ==> p !in acts[k].added
    ensures p !in Inserted(atomic, s, acts, hit)
    decreases |acts|
  {
    if acts != [] {
      assert forall k :: 0 <= k < |acts[1..]| ==> acts[1..][k] == acts[k + 1];
      NothingInserted(atomic, Do(atomic, s, acts[0]), acts[1..], p, NextInserted(s, acts[0], hit));
    }
  }

  // ---------- the two-step removal of the program ----------

  const D: Path := ["d"]
  const L0: Lock := Lock(D, 0)
  const L1: Lock := Lock(D, 1)

  function Call(pc: Pc): seq<Frame> {
    [Frame(D, pc)]
  }

  // The first task alone, the first two, and all three with the first one finished.
  function One(a: Pc, table: map<Path, Lock>, serial: nat): State {
    State(map[1 := Call(a)], {}, table, serial)
  }

  function Two(a: Pc, b: Pc, table: map<Path, Lock>): State {
    State(map[1 := Call(a), 2 := Call(b)], {}, table, 1)
  }

  function Three(b: Pc, c: Pc, cached: set<Path>, table: map<Path, Lock>, serial: nat): State {
    State(map[1 := [], 2 := Call(b), 3 := Call(c)], cached, table, serial)
  }

  lemma {:induction false} Extend(atomic: bool, s: State, acts: seq<Action>, a: Action)
    requires Runs(atomic, s, acts) && Enabled(After(atomic, s, acts), a)
    ensures Runs(atomic, s, acts + [a]) && After(atomic, s, acts + [a]) == Do(atomic, After(atomic, s, acts), a)
    decreases |acts|
  {
    var all := acts + [a];
    if acts == [] {
      assert all[1..] == [];
    } else {
      Extend(atomic, Do(atomic, s, acts[0]), acts[1..], a);
      assert all[1..] == acts[1..] + [a];
    }
  }

  // One step of a task with a single call: the run grows and ends in the given state.
  lemma Grow(atomic: bool, acts: seq<Action>, s: State, t: nat, pc: Pc, ok: bool, s': State)
    returns (acts': seq<Action>)
    requires Runs(atomic, INIT, acts) && After(atomic, INIT, acts) == s
    requires t in s.tasks && s.tasks[t] == Call(pc) && (pc.Waiting? ==> Free(s, pc.lock))
    requires s' == Shared(atomic, s, Frame(D, pc), ok).(tasks := s.tasks[t := NextFrames(atomic, s, Frame(D, pc), ok)])
    ensures Runs(atomic, INIT, acts') && After(atomic, INIT, acts') == s'
  {
    var frames := NextFrames(atomic, s, Frame(D, pc), ok);
    assert s.tasks[t][..0] + frames == frames;
    Extend(atomic, INIT, acts, Advance(t, ok));
    acts' := acts + [Advance(t, ok)];
  }

  lemma Join(atomic: bool, acts: seq<Action>, s: State, t: nat) returns (acts': seq<Action>)
    requires Runs(atomic, INIT, acts) && After(atomic, INIT, acts) == s && !Busy(s, t)
    ensures Runs(atomic, INIT, acts') && After(atomic, INIT, acts') == s.(tasks := s.tasks[t := Call(Start)])
  {
    Extend(atomic, INIT, acts, Spawn(t, D));
    acts' := acts + [Spawn(t, D)];
  }

  // The first task takes the lock ...
  lemma RaceStarts(atomic: bool) returns (acts: seq<Action>)
    ensures Runs(atomic, INIT, acts) && After(atomic, INIT, acts) == One(Locked(L0), map[D := L0], 1)
  {
    var t := map[D := L0];
    acts := Join(atomic, [], INIT, 1);
    acts := Grow(atomic, acts, One(Start, map[], 0), 1, Start, true, One(Missed, map[], 0));
    acts := Grow(atomic, acts, One(Missed, map[], 0), 1, Missed, true, One(Waiting(L0), t, 1));
    acts := Grow(atomic, acts, One(Waiting(L0), t, 1), 1, Waiting(L0), true, One(Locked(L0), t, 1));
  }

  // ... finds nothing, lets go, and sees that nobody else has a clone.
  lemma RaceOpens() returns (acts: seq<Action>)
    ensures Runs(false, INIT, acts) && After(false, INIT, acts) == One(Removing(L0), map[D := L0], 1)
  {
    var t := map[D := L0];
    acts := RaceStarts(false);
    acts := Grow(false, acts, One(Locked(L0), t, 1), 1, Locked(L0), true, One(Asking(L0), t, 1));
    acts := Grow(false, acts, One(Asking(L0), t, 1), 1, Asking(L0), false, One(Cleaning(L0), t, 1));
    assert Arcs(One(Cleaning(L0), t, 1), L0) == {(1, 0)};
    acts := Grow(false, acts, One(Cleaning(L0), t, 1), 1, Cleaning(L0), true, One(Removing(L0), t, 1));
  }

  // A second task takes that lock ...
  lemma RaceOverlaps() returns (acts: seq<Action>)
    ensures Runs(false, INIT, acts) && After(false, INIT, acts) == Two(Removing(L0), Locked(L0), map[D := L0])
  {
    var t, r := map[D := L0], Removing(L0);
    acts := RaceOpens();
    acts := Join(false, acts, One(r, t, 1), 2);
    acts := Grow(false, acts, Two(r, Start, t), 2, Start, true, Two(r, Missed, t));
    acts := Grow(false, acts, Two(r, Missed, t), 2, Missed, true, Two(r, Waiting(L0), t));
    acts := Grow(false, acts, Two(r, Waiting(L0), t), 2, Waiting(L0), true, Two(r, Locked(L0), t));
  }

  // ... and is about to apply when the first one removes the entry.
  lemma RaceRemoves() returns (acts: seq<Action>)
    ensures Runs(false, INIT, acts) &&
            After(false, INIT, acts) == State(map[1 := [], 2 := Call(Applying(L0))], {}, map[], 1)
  {
    var t, r := map[D := L0], Removing(L0);
    acts := RaceOverlaps();
    acts := Grow(false, acts, Two(r, Locked(L0), t), 2, Locked(L0), true, Two(r, Asking(L0), t));
    acts := Grow(false, acts, Two(r, Asking(L0), t), 2, Asking(L0), true, Two(r, Applying(L0), t));
    acts := Grow(false, acts, Two(r, Applying(L0), t), 1, r, true,
                 State(map[1 := [], 2 := Call(Applying(L0))], {}, map[], 1));
  }

  // A third task finds no entry and makes a new lock ...
  lemma RaceForks() returns (acts: seq<Action>)
    ensures Runs(false, INIT, acts) && After(false, INIT, acts) == Three(Applying(L0), Waiting(L1), {}, map[D := L1], 2)
  {
    var t, b := map[D := L1], Applying(L0);
    acts := RaceRemoves();
    acts := Join(false, acts, State(map[1 := [], 2 := Call(b)], {}, map[], 1), 3);
    acts := Grow(false, acts, Three(b, Start, {}, map[], 1), 3, Start, true, Three(b, Missed, {}, map[], 1));
    acts := Grow(false, acts, Three(b, Missed, {}, map[], 1), 3, Missed, true, Three(b, Waiting(L1), {}, t, 2));
  }

  // ... so that two calls are between lock and apply for the same path.
  lemma RaceCollides() returns (acts: seq<Action>)
    ensures Runs(false, INIT, acts)
    ensures After(false, INIT, acts) == Three(Applying(L0), Applying(L1), {}, map[D := L1], 2)
    ensures !Exclusive(After(false, INIT, acts))
  {
    var t, b := map[D := L1], Applying(L0);
    acts := RaceForks();
    acts := Grow(false, acts, Three(b, Waiting(L1), {}, t, 2), 3, Waiting(L1), true, Three(b, Locked(L1), {}, t, 2));
    acts := Grow(false, acts, Three(b, Locked(L1), {}, t, 2), 3, Locked(L1), true, Three(b, Asking(L1), {}, t, 2));
    acts := Grow(false, acts, Three(b, Asking(L1), {}, t, 2), 3, Asking(L1), true, Three(b, Applying(L1), {}, t, 2));
    TwoHolders();
  }

  lemma TwoHolders()
    ensures !Exclusive(Three(Applying(L0), Applying(L1), {}, map[D := L1], 2))
  {
    var s := Three(Applying(L0), Applying(L1), {}, map[D := L1], 2);
    assert At(s, 2, 0) && At(s, 3, 0) && HeldBy(s.tasks[2][0]).Some? && HeldBy(s.tasks[3][0]).Some?;
  }

  // Then the second of the two applies a row that is already cached.
  lemma RaceReapplies() returns (acts: seq<Action>)
    ensures Runs(false, INIT, acts) && Busy(After(false, INIT, acts), 3)
    ensures Top(After(false, INIT, acts), 3) == Frame(D, Applying(L1)) && D in After(false, INIT, acts).cached
  {
    acts := RaceCollides();
    var t := map[D := L1];
    acts := Grow(false, acts, Three(Applying(L0), Applying(L1), {}, t, 2), 2, Applying(L0), true,
                 Three(Applied(L0), Applying(L1), {D}, t, 2));
  }

  // Mutual exclusion per path holds in every interleaving exactly when the count check and
  // the removal are a single step.
  lemma ExclusiveIffAtomic(atomic: bool)
    ensures (forall acts :: Runs(atomic, INIT, acts) ==> Exclusive(After(atomic, INIT, acts))) <==> atomic
  {
    if atomic {
      forall acts | Runs(atomic, INIT, acts)
        ensures Exclusive(After(atomic, INIT, acts))
      {
        AtomicCleanupExclusive(acts);
      }
    } else {
      var acts := RaceCollides();
    }
  }

  // ---------- insertions by other events ----------

  // Even with the atomic cleanup: an event that inserts the path between the second look
  // and the apply is applied over, and a directory loses its size.
  lemma InsertedThenApplied() returns (acts: seq<Action>)
    ensures Runs(true, INIT, acts) && Busy(After(true, INIT, acts), 1)
    ensures Top(After(true, INIT, acts), 1) == Frame(D, Applying(L0)) && D in After(true, INIT, acts).cached
  {
    var t := map[D := L0];
    acts := RaceStarts(true);
    acts := Grow(true, acts, One(Locked(L0), t, 1), 1, Locked(L0), true, One(Asking(L0), t, 1));
    acts := Grow(true, acts, One(Asking(L0), t, 1), 1, Asking(L0), true, One(Applying(L0), t, 1));
    Extend(true, INIT, acts, Appear({D}));
    acts := acts + [Appear({D})];
  }
}
