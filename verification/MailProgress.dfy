// When the queue moves on.  A claim stops at the first selected mail whose event type the
// program cannot parse, so such a mail can hold up all the others.
module MailProgress {
  import opened MailSystem

  // ---------- one claim ----------

  function DueBefore(rows: map<nat, Mail>, now: nat, from: nat, x: nat): set<nat> {
    set id | id in rows && from <= id < x && rows[id].state.Pending? && rows[id].due <= now
  }

  predicate Selects(batch: seq<Claimed>, id: nat) {
    exists i :: 0 <= i < |batch| && batch[i].id == id
  }

  // The select reaches a due mail exactly if fewer than the limit are due before it.
  lemma {:induction false} SelectedIff(rows: map<nat, Mail>, now: nat, from: nat, top: nat, limit: nat, x: nat)
    requires from <= top
    ensures Selects(DueRows(rows, now, from, top, limit), x) <==>
            from <= x < top && x in rows && rows[x].state.Pending? && rows[x].due <= now &&
            |DueBefore(rows, now, from, x)| < limit
    decreases top - from
  {
    if from < top && limit > 0 {
      var here := from in rows && Due(rows[from], now);
      var rest := DueRows(rows, now, from + 1, top, if here then limit - 1 else limit);
      SelectedIff(rows, now, from + 1, top, if here then limit - 1 else limit, x);
      BeforeNext(rows, now, from, x);
      if here {
        SelectsCons(Claimed(from, rows[from].attempts), rest, x);
      }
    }
  }

  lemma SelectsCons(c: Claimed, rest: seq<Claimed>, x: nat)
    ensures Selects([c] + rest, x) <==> c.id == x || Selects(rest, x)
  {
    assert ([c] + rest)[0] == c;
    if i :| 0 <= i < |rest| && rest[i].id == x {
      assert ([c] + rest)[i + 1] == rest[i];
    }
  }

  lemma BeforeNext(rows: map<nat, Mail>, now: nat, from: nat, x: nat)
    ensures |DueBefore(rows, now, from, x)| ==
            |DueBefore(rows, now, from + 1, x)| + (if from < x && from in rows && Due(rows[from], now) then 1 else 0)
  {
    var more, less := DueBefore(rows, now, from, x), DueBefore(rows, now, from + 1, x);
    if from < x && from in rows && Due(rows[from], now) {
      assert more == less + {from};
    } else {
      assert more == less;
    }
  }

  predicate AllKnown(rows: map<nat, Mail>, batch: seq<Claimed>) {
    forall c :: c in batch ==> c.id in rows && rows[c.id].known
  }

  // Every due mail of unknown type has a full batch of due mails before it.
  predicate Passable(rows: map<nat, Mail>, now: nat) {
    forall x :: x in rows && Due(rows[x], now) && !rows[x].known ==> |DueBefore(rows, now, 0, x)| >= BATCH
  }

  predicate SomethingDue(rows: map<nat, Mail>, now: nat) {
    exists id :: id in rows && rows[id].state.Pending? && rows[id].due <= now
  }

  // The mails selected are all known exactly then.
  lemma AllKnownIff(rows: map<nat, Mail>, now: nat, top: nat)
    requires forall id :: id in rows ==> id < top
    ensures AllKnown(rows, DueRows(rows, now, 0, top, BATCH)) <==> Passable(rows, now)
    ensures DueRows(rows, now, 0, top, BATCH) != [] <==> SomethingDue(rows, now)
  {
    var batch := DueRows(rows, now, 0, top, BATCH);
    DueRowsAre(rows, now, 0, top, BATCH);
    forall x | x in rows && Due(rows[x], now)
      ensures Selects(batch, x) <==> |DueBefore(rows, now, 0, x)| < BATCH
      ensures batch != []
    {
      SelectedIff(rows, now, 0, top, BATCH, x);
      SomeSelected(rows, now, 0, top, BATCH, x);
    }
    if batch != [] {
      assert Due(rows[batch[0].id], now);
    }
    if c :| c in batch && c.id in rows && !rows[c.id].known {
      assert Selects(batch, c.id);
    }
    if x :| x in rows && Due(rows[x], now) && !rows[x].known && Selects(batch, x) {
      var i :| 0 <= i < |batch| && batch[i].id == x;
      assert batch[i] in batch;
    }
  }

  lemma {:induction false} SomeSelected(rows: map<nat, Mail>, now: nat, from: nat, top: nat, limit: nat, x: nat)
    requires from <= x < top && limit > 0 && x in rows && Due(rows[x], now)
    ensures DueRows(rows, now, from, top, limit) != []
    decreases top - from
  {
    if from < x {
      SomeSelected(rows, now, from + 1, top, limit, x);
    }
  }

  // ---------- for ever ----------

  // The mails before x that are neither sent nor given up.
  function Open(rows: map<nat, Mail>, x: nat): set<nat> {
    set id | id in rows && id < x && !Terminal(rows[id])
  }

  // Claims from the instant t on, none of them while another transaction has locked x.
  predicate ClaimsMeet(run: seq<Action>, x: nat, t: nat) {
    forall k :: 0 <= k < |run| ==>
      (run[k].Select? ==> run[k].now >= t) && (run[k].ClaimBatch? ==> run[k].now >= t && x !in run[k].locked)
  }

  predicate NothingSent(run: seq<Action>) {
    forall k :: 0 <= k < |run| ==> !run[k].Deliver?
  }

  ghost predicate HeldUp(k: Worker, x: nat) {
    k.Idle? || (k.Claiming? && Selects(k.rest, x))
  }

  // Every claim will stop at x.
  ghost predicate Starving(s: System, x: nat) {
    && Ids(s) && x in s.rows && s.rows[x].state.Pending? && !s.rows[x].known && |Open(s.rows, x)| < BATCH
    && forall w :: w in s.workers ==> HeldUp(s.workers[w], x)
  }

  lemma OpenShrinks(rows: map<nat, Mail>, rows': map<nat, Mail>, x: nat)
    requires forall id :: id in rows' && id < x && !Terminal(rows'[id]) ==> id in rows && !Terminal(rows[id])
    ensures |Open(rows', x)| <= |Open(rows, x)|
  {
    assert Open(rows', x) <= Open(rows, x);
    assert Open(rows, x) == Open(rows', x) + (Open(rows, x) - Open(rows', x));
  }

  lemma StopsAt(rows: map<nat, Mail>, now: nat, top: nat, x: nat)
    requires x in rows && x < top && Due(rows[x], now) && |Open(rows, x)| < BATCH
    ensures Selects(DueRows(rows, now, 0, top, BATCH), x)
  {
    var before, open := DueBefore(rows, now, 0, x), Open(rows, x);
    assert before <= open && open == before + (open - before);
    SelectedIff(rows, now, 0, top, BATCH, x);
  }

  lemma StarvingStep(s: System, a: Action, x: nat)
    requires Starving(s, x) && Enabled(s, a)
    requires a.Select? || a.ClaimBatch? ==> a.now >= s.rows[x].due
    requires a.ClaimBatch? ==> x !in a.locked
    ensures Starving(Apply(s, a), x) && Apply(s, a).rows[x] == s.rows[x] && !a.Deliver?
  {
    var s' := Apply(s, a);
    match a
    case Enqueue(_, _) =>
      OpenShrinks(s.rows, s'.rows, x);
    case Select(_, now) =>
      StopsAt(s.rows, now, s.nextId, x);
    case ClaimOne(w) =>
      var k := s.workers[w];
      assert k.rest == [k.rest[0]] + k.rest[1..];
      SelectsCons(k.rest[0], k.rest[1..], x);
      OpenShrinks(s.rows, s'.rows, x);
    case ClaimBatch(_, now, locked) =>
      OpenShrinks(s.rows, s.rows - locked, x);
      StopsAt(s.rows - locked, now, s.nextId, x);
    case Rest(_) =>
    case Deliver(_, _, _, _) =>
    case GiveUp(_) =>
    case Reclaim(_, _) =>
      OpenShrinks(s.rows, s'.rows, x);
  }

  lemma {:induction false} StarvedRun(s: System, run: seq<Action>, x: nat)
    requires Starving(s, x) && AllEnabled(s, run) && ClaimsMeet(run, x, s.rows[x].due)
    ensures NothingSent(run) && Starving(Run(s, run), x)
    decreases |run|
  {
    if run != [] {
      StarvingStep(s, run[0], x);
      assert forall k :: 0 <= k < |run[1..]| ==> run[1..][k] == run[k + 1];
      StarvedRun(Apply(s, run[0]), run[1..], x);
    }
  }

  // All workers idle, and x the first mail of unknown type that is still pending: once it is
  // due no mail is ever sent again exactly if fewer than a full batch is open before it.
  lemma StarvedIff(s: System, w: nat, x: nat)
    requires Ids(s) && w in s.workers && forall v :: v in s.workers ==> s.workers[v].Idle?
    requires x in s.rows && s.rows[x].state.Pending? && !s.rows[x].known
    requires forall id :: id in s.rows && id < x && !Terminal(s.rows[id]) ==> s.rows[id].known
    ensures (forall run :: AllEnabled(s, run) && ClaimsMeet(run, x, s.rows[x].due) ==> NothingSent(run)) <==>
            |Open(s.rows, x)| < BATCH
  {
    if |Open(s.rows, x)| < BATCH {
      forall run | AllEnabled(s, run) && ClaimsMeet(run, x, s.rows[x].due)
        ensures NothingSent(run)
      {
        StarvedRun(s, run, x);
      }
    } else {
      var run := SomethingSent(s, w, x);
    }
  }

  // An instant at which everything pending is due and everything claimed is stuck.
  lemma LateInstant(rows: map<nat, Mail>, ids: set<nat>) returns (t: nat)
    requires ids <= rows.Keys
    ensures forall id :: id in ids ==>
              rows[id].due <= t && (rows[id].state.Sending? ==> rows[id].state.claimedAt + STUCK_SENDING_AFTER_SECS < t)
    decreases ids
  {
    t := 0;
    if ids != {} {
      var id :| id in ids;
      var t0 := LateInstant(rows, ids - {id});
      var claimed := if rows[id].state.Sending? then rows[id].state.claimedAt else 0;
      t := t0 + rows[id].due + claimed + STUCK_SENDING_AFTER_SECS + 1;
    }
  }

  // A reclaim, a claim and a delivery, late enough.
  lemma SomethingSent(s: System, w: nat, x: nat) returns (run: seq<Action>)
    requires Ids(s) && w in s.workers && s.workers[w].Idle? && x in s.rows && |Open(s.rows, x)| >= BATCH
    requires forall id :: id in s.rows && id < x && !Terminal(s.rows[id]) ==> s.rows[id].known
    ensures AllEnabled(s, run) && ClaimsMeet(run, x, s.rows[x].due) && !NothingSent(run)
  {
    var t := LateInstant(s.rows, s.rows.Keys);
    var s1 := Apply(s, Reclaim(w, t));
    var due := DueRows(s1.rows, t, 0, s1.nextId, BATCH);
    AllOpenDue(s.rows, t, x);
    BatchBefore(s1.rows, t, s1.nextId, x);
    assert s1.rows - {} == s1.rows;
    var s2 := Apply(s1, ClaimBatch(w, t, {}));
    ClaimAllIs(s1.rows, due, t, due[0].id);
    run := [Reclaim(w, t), ClaimBatch(w, t, {}), Deliver(w, t, Accepted, true)];
    assert s2.workers[w] == Draining(due);
    assert run[2].Deliver?;
    assert run[1..] == [run[1], run[2]] && run[1..][1..] == [run[2]] && run[1..][1..][1..] == [];
    assert AllEnabled(s2, [run[2]]);
  }

  lemma AllOpenDue(rows: map<nat, Mail>, t: nat, x: nat)
    requires forall id :: id in rows ==>
               rows[id].due <= t &&
               (rows[id].state.Sending? ==> rows[id].state.claimedAt + STUCK_SENDING_AFTER_SECS < t)
    ensures DueBefore(Reclaimed(rows, t), t, 0, x) == Open(rows, x)
  {
  }

  // With a full batch due before x the select stops short of x.
  lemma BatchBefore(rows: map<nat, Mail>, now: nat, top: nat, x: nat)
    requires |DueBefore(rows, now, 0, x)| >= BATCH && (forall id :: id in rows ==> id < top)
    requires forall id :: id in DueBefore(rows, now, 0, x) ==> rows[id].known
    ensures
      var due := DueRows(rows, now, 0, top, BATCH);
      due != [] && forall i :: 0 <= i < |due| ==> due[i].id in rows && rows[due[i].id].known
  {
    var due := DueRows(rows, now, 0, top, BATCH);
    DueRowsAre(rows, now, 0, top, BATCH);
    var y :| y in DueBefore(rows, now, 0, x);
    SomeSelected(rows, now, 0, top, BATCH, y);
    forall i | 0 <= i < |due|
      ensures due[i].id < x
    {
      assert Selects(due, due[i].id);
      SelectedIff(rows, now, 0, top, BATCH, due[i].id);
      if due[i].id >= x {
        MoreBefore(rows, now, x, due[i].id);
      }
    }
  }

  lemma MoreBefore(rows: map<nat, Mail>, now: nat, x: nat, y: nat)
    requires x <= y
    ensures |DueBefore(rows, now, 0, x)| <= |DueBefore(rows, now, 0, y)|
  {
    var a, b := DueBefore(rows, now, 0, x), DueBefore(rows, now, 0, y);
    assert a <= b && b == a + (b - a);
  }
}
