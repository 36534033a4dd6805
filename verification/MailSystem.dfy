// The outbound mail queue as a state machine: any number of workers select, claim, send and
// mark, one database statement at a time, with crashes and failing statements anywhere.
module MailSystem {

  const BACKOFF_SECS: seq<nat> := [60, 300, 1800]
  const STUCK_SENDING_AFTER_SECS: nat := 300
  const BATCH: nat := 8

  datatype State = Pending | Sending(claimedAt: nat) | Sent | Failed

  // `known` tells whether the stored event type is one this program can parse.
  datatype Mail = Mail(state: State, attempts: nat, due: nat, known: bool)

  datatype Claimed = Claimed(id: nat, attempts: nat)

  datatype Delivery = Accepted | Transient | Permanent

  // Between two batches; claiming the selected rows one by one; sending the claimed ones.
  datatype Worker = Idle | Claiming(now: nat, rest: seq<Claimed>, out: seq<Claimed>) | Draining(hand: seq<Claimed>)

  // How often a mail was handed to the mailer and how often it was reclaimed.
  datatype Log = Log(sends: nat, reclaims: nat)

  datatype System = System(rows: map<nat, Mail>, nextId: nat, log: map<nat, Log>, workers: map<nat, Worker>)

  datatype Action =
    | Enqueue(now: nat, known: bool)
    | Select(w: nat, now: nat)
    | ClaimOne(w: nat)
    | ClaimBatch(w: nat, now: nat, locked: set<nat>)
    | Deliver(w: nat, now: nat, result: Delivery, marked: bool)
    | Rest(w: nat)
    | GiveUp(w: nat)
    | Reclaim(w: nat, now: nat)

  // ---------- the statements ----------

  predicate Due(m: Mail, now: nat) {
    m.state.Pending? && m.due <= now
  }

  // SELECT ... WHERE due ORDER BY id LIMIT limit
  function DueRows(rows: map<nat, Mail>, now: nat, from: nat, top: nat, limit: nat): seq<Claimed>
    requires from <= top
    decreases top - from
  {
    if from == top || limit == 0 then []
    else if from in rows && Due(rows[from], now) then
      [Claimed(from, rows[from].attempts)] + DueRows(rows, now, from + 1, top, limit - 1)
    else DueRows(rows, now, from + 1, top, limit)
  }

  // UPDATE ... WHERE id AND state = 'Pending'
  function Claim(rows: map<nat, Mail>, id: nat, now: nat): map<nat, Mail> {
    if id in rows && rows[id].state.Pending? then rows[id := rows[id].(state := Sending(now))] else rows
  }

  // Claiming the given mails one after the other.
  function ClaimAll(rows: map<nat, Mail>, batch: seq<Claimed>, now: nat): map<nat, Mail> {
    if batch == [] then rows else ClaimAll(Claim(rows, batch[0].id, now), batch[1..], now)
  }

  lemma {:induction false} ClaimOneMore(rows: map<nat, Mail>, batch: seq<Claimed>, now: nat, k: nat)
    requires k < |batch|
    ensures ClaimAll(rows, batch[..k + 1], now) == Claim(ClaimAll(rows, batch[..k], now), batch[k].id, now)
    decreases k
  {
    assert batch[..k + 1][1..] == batch[1..][..k];
    if k > 0 {
      assert batch[..k][1..] == batch[1..][..k - 1];
      ClaimOneMore(Claim(rows, batch[0].id, now), batch[1..], now, k - 1);
    } else {
      assert batch[..0] == [] && batch[..1][1..] == [];
    }
  }

  // The selected mails are distinct, in order of id, and due.
  lemma {:induction false} DueRowsAre(rows: map<nat, Mail>, now: nat, from: nat, top: nat, limit: nat)
    requires from <= top
    ensures
      var r := DueRows(rows, now, from, top, limit);
      && |r| <= limit
      && (forall i :: 0 <= i < |r| ==> from <= r[i].id < top && r[i].id in rows && Due(rows[r[i].id], now))
      && (forall i, j :: 0 <= i < j < |r| ==> r[i].id < r[j].id)
    decreases top - from
  {
    if from < top && limit > 0 {
      DueRowsAre(rows, now, from + 1, top, limit);
      DueRowsAre(rows, now, from + 1, top, limit - 1);
    }
  }

  lemma {:induction false} ClaimAllIs(rows: map<nat, Mail>, batch: seq<Claimed>, now: nat, id: nat)
    ensures id in ClaimAll(rows, batch, now) <==> id in rows
    ensures id in rows ==>
              ClaimAll(rows, batch, now)[id] ==
              if rows[id].state.Pending? && (exists i :: 0 <= i < |batch| && batch[i].id == id)
              then rows[id].(state := Sending(now)) else rows[id]
    decreases |batch|
  {
    if batch != [] {
      ClaimAllIs(Claim(rows, batch[0].id, now), batch[1..], now, id);
      assert (exists i :: 0 <= i < |batch| && batch[i].id == id) <==>
             batch[0].id == id || exists i :: 0 <= i < |batch[1..]| && batch[1..][i].id == id by {
        if i :| 0 <= i < |batch| && batch[i].id == id {
          assert i > 0 ==> batch[1..][i - 1].id == id;
        }
        if i :| 0 <= i < |batch[1..]| && batch[1..][i].id == id {
          assert batch[i + 1].id == id;
        }
      }
    }
  }

  function Backoff(attempts: nat): nat {
    BACKOFF_SECS[if attempts < 2 then attempts else 2]
  }

  function Marked(m: Mail, attempts: nat, result: Delivery, now: nat): Mail {
    if result.Accepted? then m.(state := Sent)
    else if result.Transient? && attempts < 3 then Mail(Pending, m.attempts + 1, now + Backoff(attempts), m.known)
    else m.(state := Failed, attempts := m.attempts + 1)
  }

  predicate Stuck(m: Mail, now: nat) {
    m.state.Sending? && m.state.claimedAt + STUCK_SENDING_AFTER_SECS < now
  }

  function Reclaimed(rows: map<nat, Mail>, now: nat): map<nat, Mail> {
    map id | id in rows :: if Stuck(rows[id], now) then rows[id].(state := Pending) else rows[id]
  }

  // ---------- steps ----------

  predicate Enabled(s: System, a: Action) {
    match a
    case Enqueue(_, _) => true
    case Select(w, _) => w in s.workers && s.workers[w].Idle?
    case ClaimBatch(w, _, _) => w in s.workers && s.workers[w].Idle?
    case ClaimOne(w) =>
      w in s.workers && s.workers[w].Claiming? && s.workers[w].rest != [] && s.workers[w].rest[0].id in s.rows
    case Deliver(w, _, _, _) =>
      && w in s.workers && s.workers[w].Draining? && s.workers[w].hand != []
      && s.workers[w].hand[0].id in s.rows && s.workers[w].hand[0].id in s.log
    case Rest(w) =>
      && w in s.workers
      && ((s.workers[w].Claiming? && s.workers[w].rest == []) || (s.workers[w].Draining? && s.workers[w].hand == []))
    case GiveUp(w) => w in s.workers
    case Reclaim(w, _) => w in s.workers && s.workers[w].Idle?
  }

  function Apply(s: System, a: Action): System
    requires Enabled(s, a)
  {
    match a
    case Enqueue(now, known) =>
      System(s.rows[s.nextId := Mail(Pending, 0, now, known)], s.nextId + 1, s.log[s.nextId := Log(0, 0)], s.workers)
    case Select(w, now) =>
      s.(workers := s.workers[w := Claiming(now, DueRows(s.rows, now, 0, s.nextId, BATCH), [])])
    case ClaimOne(w) =>
      var k := s.workers[w];
      var c := k.rest[0];
      // An unknown event type ends the whole claim with an error.
      if !s.rows[c.id].known then s.(workers := s.workers[w := Idle])
      else
        System(Claim(s.rows, c.id, k.now), s.nextId, s.log,
               s.workers[w := Claiming(k.now, k.rest[1..], if s.rows[c.id].state.Pending? then k.out + [c] else k.out)])
    // One transaction: the due rows nobody has locked, or nothing if one of them is unknown.
    case ClaimBatch(w, now, locked) =>
      var due := DueRows(s.rows - locked, now, 0, s.nextId, BATCH);
      if exists i :: 0 <= i < |due| && due[i].id in s.rows && !s.rows[due[i].id].known then s
      else System(ClaimAll(s.rows, due, now), s.nextId, s.log, s.workers[w := Draining(due)])
    case Deliver(w, now, result, marked) =>
      var c := s.workers[w].hand[0];
      System(if marked then s.rows[c.id := Marked(s.rows[c.id], c.attempts, result, now)] else s.rows, s.nextId,
             s.log[c.id := Log(s.log[c.id].sends + 1, s.log[c.id].reclaims)],
             s.workers[w := Draining(s.workers[w].hand[1..])])
    case Rest(w) =>
      s.(workers := s.workers[w := if s.workers[w].Claiming? then Draining(s.workers[w].out) else Idle])
    case GiveUp(w) =>
      s.(workers := s.workers[w := Idle])
    case Reclaim(w, now) =>
      System(Reclaimed(s.rows, now), s.nextId, CountReclaims(s.rows, s.log, now), s.workers)
  }

  function CountReclaims(rows: map<nat, Mail>, log: map<nat, Log>, now: nat): map<nat, Log> {
    map id | id in log ::
      if id in rows && Stuck(rows[id], now) then Log(log[id].sends, log[id].reclaims + 1) else log[id]
  }

  // ---------- runs ----------

  ghost predicate AllEnabled(s: System, run: seq<Action>)
    decreases |run|
  {
    run == [] || (Enabled(s, run[0]) && AllEnabled(Apply(s, run[0]), run[1..]))
  }

  ghost function Run(s: System, run: seq<Action>): System
    requires AllEnabled(s, run)
    decreases |run|
  {
    if run == [] then s else Run(Apply(s, run[0]), run[1..])
  }

  // ---------- one claimant each ----------

  // What a worker has claimed and not yet marked.
  function Held(k: Worker): seq<Claimed> {
    match k
    case Idle => []
    case Claiming(_, _, out) => out
    case Draining(hand) => hand
  }

  ghost predicate Holds(s: System, w: nat, i: nat, id: nat) {
    w in s.workers && i < |Held(s.workers[w])| && Held(s.workers[w])[i].id == id
  }

  // Two holders of a mail are the same worker and the same entry of its batch; a held mail
  // is in state Sending.
  ghost predicate Exclusive(s: System) {
    && (forall v, i, w, j, id {:trigger Holds(s, v, i, id), Holds(s, w, j, id)} ::
          Holds(s, v, i, id) && Holds(s, w, j, id) ==> v == w && i == j)
    && (forall w, i, id {:trigger Holds(s, w, i, id)} :: Holds(s, w, i, id) ==>
        id in s.rows && s.rows[id].state.Sending?)
  }

  // No mail that is about to be reclaimed is still held: its claimant is gone.
  ghost predicate ClaimantsGone(s: System, now: nat) {
    forall w, i, id {:trigger Holds(s, w, i, id)} :: Holds(s, w, i, id) && id in s.rows ==> !Stuck(s.rows[id], now)
  }

  ghost predicate Ids(s: System) {
    s.log.Keys == s.rows.Keys && forall id :: id in s.rows ==> id < s.nextId
  }

  ghost predicate SafeReclaims(s: System, a: Action) {
    a.Reclaim? ==> ClaimantsGone(s, a.now)
  }

  // A worker's new batch is part of its old one, or has one more mail that nobody held.
  lemma BatchStep(s: System, a: Action)
    requires Exclusive(s) && Ids(s) && Enabled(s, a) && SafeReclaims(s, a)
    ensures Exclusive(Apply(s, a)) && Ids(Apply(s, a))
  {
    var s' := Apply(s, a);
    match a
    case Enqueue(_, _) =>
      assert forall w, i, id {:trigger Holds(s', w, i, id)} :: Holds(s', w, i, id) ==> Holds(s, w, i, id);
    case Select(w0, _) =>
      assert forall w, i, id {:trigger Holds(s', w, i, id)} :: Holds(s', w, i, id) ==> Holds(s, w, i, id);
    case ClaimOne(w0) =>
      ClaimOneStep(s, w0);
    case ClaimBatch(_, _, _) =>
      ClaimBatchStep(s, a);
    case Deliver(w0, _, _, _) =>
      DeliverStep(s, a);
    case Rest(w0) =>
      assert forall w, i, id {:trigger Holds(s', w, i, id)} :: Holds(s', w, i, id) ==> Holds(s, w, i, id);
    case GiveUp(w0) =>
      assert forall w, i, id {:trigger Holds(s', w, i, id)} :: Holds(s', w, i, id) ==> Holds(s, w, i, id);
    case Reclaim(_, _) =>
      assert forall w, i, id {:trigger Holds(s', w, i, id)} :: Holds(s', w, i, id) ==> Holds(s, w, i, id);
  }

  lemma ClaimOneStep(s: System, w0: nat)
    requires Exclusive(s) && Ids(s) && Enabled(s, ClaimOne(w0))
    ensures Exclusive(Apply(s, ClaimOne(w0))) && Ids(Apply(s, ClaimOne(w0)))
  {
    var s', c := Apply(s, ClaimOne(w0)), s.workers[w0].rest[0];
    forall w: nat, i: nat, id: nat | Holds(s', w, i, id)
      ensures Holds(s, w, i, id) || (w == w0 && i == |s.workers[w0].out| && id == c.id && s.rows[c.id].state.Pending?)
    {
    }
  }

  // All of a batch was pending, so nobody held any of it.
  lemma ClaimBatchStep(s: System, a: Action)
    requires Exclusive(s) && Ids(s) && a.ClaimBatch? && Enabled(s, a)
    ensures Exclusive(Apply(s, a)) && Ids(Apply(s, a))
  {
    var s' := Apply(s, a);
    var due := DueRows(s.rows - a.locked, a.now, 0, s.nextId, BATCH);
    DueRowsAre(s.rows - a.locked, a.now, 0, s.nextId, BATCH);
    forall id
      ensures id in ClaimAll(s.rows, due, a.now) <==> id in s.rows
      ensures id in s.rows && s.rows[id].state.Sending? ==> ClaimAll(s.rows, due, a.now)[id] == s.rows[id]
      ensures id in s.rows && s.rows[id].state.Pending? && (exists i :: 0 <= i < |due| && due[i].id == id) ==>
                ClaimAll(s.rows, due, a.now)[id].state.Sending?
    {
      ClaimAllIs(s.rows, due, a.now, id);
    }
    if s' != s {
      forall w: nat, i: nat, id: nat | Holds(s', w, i, id)
        ensures if w == a.w then i < |due| && due[i].id == id && s.rows[id].state.Pending? else Holds(s, w, i, id)
      {
      }
    }
  }

  lemma DeliverStep(s: System, a: Action)
    requires Exclusive(s) && Ids(s) && a.Deliver? && Enabled(s, a)
    ensures Exclusive(Apply(s, a)) && Ids(Apply(s, a))
  {
    var s', c := Apply(s, a), s.workers[a.w].hand[0];
    assert Holds(s, a.w, 0, c.id);
    forall w: nat, i: nat, id: nat | Holds(s', w, i, id)
      ensures Holds(s, w, if w == a.w then i + 1 else i, id) && id != c.id
    {
      assert Holds(s, w, if w == a.w then i + 1 else i, id);
    }
  }

  ghost predicate AllReclaimsSafe(s: System, run: seq<Action>)
    requires AllEnabled(s, run)
    decreases |run|
  {
    run == [] || (SafeReclaims(s, run[0]) && AllReclaimsSafe(Apply(s, run[0]), run[1..]))
  }

  function Start(workers: set<nat>): System {
    System(map[], 0, map[], map w | w in workers :: Idle)
  }

  lemma {:induction false} RunExclusive(s: System, run: seq<Action>)
    requires Exclusive(s) && Ids(s) && AllEnabled(s, run) && AllReclaimsSafe(s, run)
    ensures Exclusive(Run(s, run)) && Ids(Run(s, run))
    decreases |run|
  {
    if run != [] {
      BatchStep(s, run[0]);
      RunExclusive(Apply(s, run[0]), run[1..]);
    }
  }

  // Reclaiming is the one step that can give a mail a second claimant, and it can do so
  // exactly when a claimant is still there.
  lemma ReclaimExclusiveIff(s: System, w: nat, now: nat)
    requires Exclusive(s) && Ids(s) && Enabled(s, Reclaim(w, now))
    ensures Exclusive(Apply(s, Reclaim(w, now))) <==> ClaimantsGone(s, now)
  {
    var s' := Apply(s, Reclaim(w, now));
    if Exclusive(s') {
      forall v, i, id | Holds(s, v, i, id) && id in s.rows
        ensures !Stuck(s.rows[id], now)
      {
        assert Holds(s', v, i, id);
      }
    }
    if ClaimantsGone(s, now) {
      BatchStep(s, Reclaim(w, now));
    }
  }

  predicate Terminal(m: Mail) {
    m.state.Sent? || m.state.Failed?
  }

  // A mail that is sent or has failed never changes again.
  lemma TerminalStays(s: System, a: Action, id: nat)
    requires Exclusive(s) && Ids(s) && Enabled(s, a) && id in s.rows && Terminal(s.rows[id])
    ensures id in Apply(s, a).rows && Apply(s, a).rows[id] == s.rows[id]
    ensures a.Deliver? ==> s.workers[a.w].hand[0].id != id
  {
    if a.Deliver? {
      assert Holds(s, a.w, 0, s.workers[a.w].hand[0].id);
    } else if a.ClaimBatch? {
      ClaimAllIs(s.rows, DueRows(s.rows - a.locked, a.now, 0, s.nextId, BATCH), a.now, id);
    }
  }

  lemma {:induction false} TerminalForever(s: System, run: seq<Action>, id: nat)
    requires Exclusive(s) && Ids(s) && AllEnabled(s, run) && AllReclaimsSafe(s, run) && id in s.rows &&
             Terminal(s.rows[id])
    ensures id in Run(s, run).rows && Run(s, run).rows[id] == s.rows[id]
    ensures id in Run(s, run).log && id in s.log && Run(s, run).log[id] == s.log[id]
    decreases |run|
  {
    if run != [] {
      TerminalStays(s, run[0], id);
      BatchStep(s, run[0]);
      TerminalForever(Apply(s, run[0]), run[1..], id);
    }
  }

  // ---------- bounded attempts ----------

  // A claimed mail still has the attempt count it was selected with.
  ghost predicate Current(s: System, c: Claimed) {
    c.id in s.rows && s.rows[c.id].attempts == c.attempts
  }

  ghost predicate AllCurrent(s: System, batch: seq<Claimed>) {
    forall i :: 0 <= i < |batch| ==> Current(s, batch[i])
  }

  ghost predicate HeldCurrent(s: System) {
    forall w {:trigger s.workers[w]} :: w in s.workers ==> AllCurrent(s, Held(s.workers[w]))
  }

  // A mail is sent at most once per completed attempt, once more if it was accepted or its
  // marking failed, and once more each time it was reclaimed.
  predicate Tallied(m: Mail, log: Log, held: bool) {
    && m.attempts <= (if m.state.Failed? then 4 else 3)
    && log.sends <= m.attempts + log.reclaims + (if m.state.Sent? || (m.state.Sending? && !held) then 1 else 0)
  }

  ghost predicate HeldNow(s: System, id: nat) {
    exists w, i :: Holds(s, w, i, id)
  }

  ghost predicate Bounded(s: System) {
    && HeldCurrent(s)
    && forall id {:trigger Bound(s, id)} :: id in s.rows ==> Bound(s, id)
  }

  ghost predicate Bound(s: System, id: nat) {
    id in s.rows && id in s.log && Tallied(s.rows[id], s.log[id], HeldNow(s, id))
  }

  // A claim that takes the row's attempt count of now.
  ghost predicate FreshClaim(s: System, a: Action)
    requires Enabled(s, a)
  {
    a.ClaimOne? ==> Current(s, s.workers[a.w].rest[0])
  }

  // Four attempts before a mail is given up, and every extra send is a reclaim.
  lemma SendsBounded(s: System, id: nat)
    requires Bounded(s) && id in s.rows
    ensures id in s.log && s.log[id].sends <= 4 + s.log[id].reclaims
    ensures s.rows[id].attempts <= (if Terminal(s.rows[id]) then 4 else 3)
  {
    assert Bound(s, id);
  }

  lemma {:induction false} DueRowsCurrent(s: System, rows: map<nat, Mail>, now: nat, from: nat, limit: nat)
    requires from <= s.nextId && forall id :: id in rows ==> id in s.rows && rows[id] == s.rows[id]
    ensures AllCurrent(s, DueRows(rows, now, from, s.nextId, limit))
    decreases s.nextId - from
  {
    if from < s.nextId && limit > 0 {
      DueRowsCurrent(s, rows, now, from + 1, limit);
      if from in rows && Due(rows[from], now) {
        DueRowsCurrent(s, rows, now, from + 1, limit - 1);
      }
    }
  }

  // No step but a delivery changes an attempt count.
  lemma AttemptsKept(s: System, a: Action, id: nat)
    requires Ids(s) && Enabled(s, a) && id in s.rows && (a.Deliver? ==> s.workers[a.w].hand[0].id != id)
    ensures id in Apply(s, a).rows && Apply(s, a).rows[id].attempts == s.rows[id].attempts
  {
    match a
    case Enqueue(_, _) =>
    case Select(_, _) =>
    case ClaimOne(_) =>
    case ClaimBatch(_, now, locked) =>
      ClaimAllIs(s.rows, DueRows(s.rows - locked, now, 0, s.nextId, BATCH), now, id);
    case Deliver(_, _, _, _) =>
    case Rest(_) =>
    case GiveUp(_) =>
    case Reclaim(_, _) =>
  }

  lemma StillCurrent(s: System, a: Action, batch: seq<Claimed>)
    requires Ids(s) && Enabled(s, a) && AllCurrent(s, batch)
    requires a.Deliver? ==> forall i :: 0 <= i < |batch| ==> batch[i].id != s.workers[a.w].hand[0].id
    ensures AllCurrent(Apply(s, a), batch)
  {
    forall i | 0 <= i < |batch|
      ensures Current(Apply(s, a), batch[i])
    {
      assert Current(s, batch[i]);
      AttemptsKept(s, a, batch[i].id);
    }
  }

  // The batches of the other workers are what they were; the acting worker's is named here.
  lemma OthersHold(s: System, a: Action, w: nat)
    requires Enabled(s, a) && w in Apply(s, a).workers
    ensures w in s.workers
    ensures a.Enqueue? || a.Reclaim? || w != a.w ==> Apply(s, a).workers[w] == s.workers[w]
    ensures (a.Select? || a.GiveUp?) && w == a.w ==> Held(Apply(s, a).workers[w]) == []
    ensures a.Rest? && w == a.w ==>
              Held(Apply(s, a).workers[w]) == [] || Held(Apply(s, a).workers[w]) == Held(s.workers[w])
    ensures a.Deliver? && w == a.w ==> Held(Apply(s, a).workers[w]) == Held(s.workers[w])[1..]
  {
  }

  lemma HeldCurrentStep(s: System, a: Action)
    requires HeldCurrent(s) && Exclusive(s) && Ids(s) && Enabled(s, a) && FreshClaim(s, a)
    ensures HeldCurrent(Apply(s, a))
  {
    var s' := Apply(s, a);
    forall w | w in s'.workers
      ensures AllCurrent(s', Held(s'.workers[w]))
    {
      OthersHold(s, a, w);
      var batch := Held(s.workers[w]);
      assert AllCurrent(s, batch);
      if a.Deliver? {
        DeliveredElsewhere(s, a, w);
      } else {
        StillCurrent(s, a, batch);
        if a.ClaimOne? && w == a.w {
          StillCurrent(s, a, [s.workers[w].rest[0]]);
          assert AllCurrent(s', [s.workers[w].rest[0]]) && Current(s', [s.workers[w].rest[0]][0]);
        } else if a.ClaimBatch? && w == a.w {
          var due := DueRows(s.rows - a.locked, a.now, 0, s.nextId, BATCH);
          DueRowsCurrent(s, s.rows - a.locked, a.now, 0, BATCH);
          StillCurrent(s, a, due);
        }
      }
    }
  }

  lemma DeliveredElsewhere(s: System, a: Action, w: nat)
    requires HeldCurrent(s) && Exclusive(s) && Ids(s) && a.Deliver? && Enabled(s, a) && w in s.workers
    ensures AllCurrent(Apply(s, a), Held(Apply(s, a).workers[w]))
  {
    var c, k := s.workers[a.w].hand[0], s.workers[w];
    var left := if w == a.w then Held(k)[1..] else Held(k);
    assert Holds(s, a.w, 0, c.id) && AllCurrent(s, Held(k));
    forall i | 0 <= i < |left|
      ensures left[i].id != c.id && Current(s, left[i])
    {
      var j := if w == a.w then i + 1 else i;
      assert left[i] == Held(k)[j] && Holds(s, w, j, left[i].id);
    }
    StillCurrent(s, a, left);
  }

  lemma BoundedStep(s: System, a: Action)
    requires Bounded(s) && Exclusive(s) && Ids(s) && Enabled(s, a) && FreshClaim(s, a) && SafeReclaims(s, a)
    ensures Bounded(Apply(s, a))
  {
    HeldCurrentStep(s, a);
    var s' := Apply(s, a);
    forall id | id in s'.rows
      ensures Bound(s', id)
    {
      KnownOrNew(s, a, id);
      if id in s.rows {
        assert Bound(s, id);
        BoundStep(s, a, id);
      } else {
        NewIsBound(s, a, id);
      }
    }
  }

  lemma KnownOrNew(s: System, a: Action, id: nat)
    requires Ids(s) && Enabled(s, a) && id in Apply(s, a).rows
    ensures id in s.rows || (a.Enqueue? && id == s.nextId)
  {
    if a.ClaimBatch? {
      ClaimAllIs(s.rows, DueRows(s.rows - a.locked, a.now, 0, s.nextId, BATCH), a.now, id);
    }
  }

  lemma NewIsBound(s: System, a: Action, id: nat)
    requires Ids(s) && a.Enqueue? && id == s.nextId
    ensures Bound(Apply(s, a), id)
  {
  }

  lemma BoundStep(s: System, a: Action, id: nat)
    requires HeldCurrent(s) && Exclusive(s) && Ids(s) && Enabled(s, a) && Bound(s, id) && SafeReclaims(s, a)
    ensures Bound(Apply(s, a), id)
  {
    var s' := Apply(s, a);
    match a
    case Deliver(_, _, _, _) =>
      DeliverBound(s, a, id);
    case ClaimOne(_) =>
      ClaimBound(s, a, id);
    case ClaimBatch(_, _, _) =>
      ClaimBatchBound(s, a, id);
    case Enqueue(_, _) =>
      assert forall w, i {:trigger Holds(s', w, i, id)} :: Holds(s', w, i, id) <==> Holds(s, w, i, id);
    case Select(_, _) =>
      assert forall w, i {:trigger Holds(s', w, i, id)} :: Holds(s', w, i, id) ==> Holds(s, w, i, id);
    case Rest(_) =>
      assert forall w, i {:trigger Holds(s', w, i, id)} :: Holds(s', w, i, id) ==> Holds(s, w, i, id);
    case GiveUp(_) =>
      assert forall w, i {:trigger Holds(s', w, i, id)} :: Holds(s', w, i, id) ==> Holds(s, w, i, id);
    case Reclaim(_, _) =>
      ReclaimBound(s, a, id);
  }

  lemma ReclaimBound(s: System, a: Action, id: nat)
    requires Exclusive(s) && Ids(s) && a.Reclaim? && Enabled(s, a) && Bound(s, id) && ClaimantsGone(s, a.now)
    ensures Bound(Apply(s, a), id)
  {
    var s' := Apply(s, a);
    assert forall w, i {:trigger Holds(s', w, i, id)} :: Holds(s', w, i, id) <==> Holds(s, w, i, id);
    if HeldNow(s, id) {
      var w, i :| Holds(s, w, i, id);
      assert Holds(s', w, i, id);
    }
  }

  lemma ClaimBound(s: System, a: Action, id: nat)
    requires Exclusive(s) && Ids(s) && a.ClaimOne? && Enabled(s, a) && Bound(s, id)
    ensures Bound(Apply(s, a), id)
  {
    var s' := Apply(s, a);
    if HeldNow(s', id) && !HeldNow(s, id) {
      var w, i :| Holds(s', w, i, id);
      assert !Holds(s, w, i, id);
    }
  }

  lemma ClaimBatchBound(s: System, a: Action, id: nat)
    requires Exclusive(s) && Ids(s) && a.ClaimBatch? && Enabled(s, a) && Bound(s, id)
    ensures Bound(Apply(s, a), id)
  {
    var s' := Apply(s, a);
    var due := DueRows(s.rows - a.locked, a.now, 0, s.nextId, BATCH);
    DueRowsAre(s.rows - a.locked, a.now, 0, s.nextId, BATCH);
    ClaimAllIs(s.rows, due, a.now, id);
    if s' != s && (exists i :: 0 <= i < |due| && due[i].id == id) {
      var i :| 0 <= i < |due| && due[i].id == id;
      assert s.rows[id].state.Pending?;
    } else if HeldNow(s', id) {
      var w, i :| Holds(s', w, i, id);
      assert Holds(s, w, i, id);
    }
  }

  lemma DeliverBound(s: System, a: Action, id: nat)
    requires HeldCurrent(s) && Exclusive(s) && Ids(s) && a.Deliver? && Enabled(s, a) && Bound(s, id)
    ensures Bound(Apply(s, a), id)
  {
    var s', c := Apply(s, a), s.workers[a.w].hand[0];
    assert Holds(s, a.w, 0, c.id);
    assert Current(s, Held(s.workers[a.w])[0]);
    forall w: nat, i: nat | Holds(s', w, i, id)
      ensures Holds(s, w, if w == a.w then i + 1 else i, id) && HeldNow(s, id) && id != c.id
    {
      assert Holds(s, w, if w == a.w then i + 1 else i, id);
    }
    assert HeldNow(s, c.id);
  }

  // Attempts still allowed.
  function Rank(m: Mail): int {
    if Terminal(m) then 0 else 4 - m.attempts
  }

  // Every recorded attempt brings a mail nearer to its end.
  lemma MarkedLowersRank(s: System, a: Action)
    requires Bounded(s) && Exclusive(s) && Ids(s) && a.Deliver? && a.marked && Enabled(s, a)
    ensures
      var id := s.workers[a.w].hand[0].id;
      0 <= Rank(Apply(s, a).rows[id]) < Rank(s.rows[id])
  {
    var c := s.workers[a.w].hand[0];
    assert Holds(s, a.w, 0, c.id) && Bound(s, c.id);
    assert Current(s, Held(s.workers[a.w])[0]);
  }

  // ---------- any number of workers ----------

  ghost predicate AllClaimsFresh(s: System, run: seq<Action>)
    requires AllEnabled(s, run)
    decreases |run|
  {
    run == [] || (FreshClaim(s, run[0]) && AllClaimsFresh(Apply(s, run[0]), run[1..]))
  }

  // However many workers: if every claim takes the row's attempt count of that moment and
  // only abandoned mails are reclaimed, the bounds hold.
  lemma {:induction false} FreshClaimsBounded(s: System, run: seq<Action>)
    requires Bounded(s) && Exclusive(s) && Ids(s) && AllEnabled(s, run)
    requires AllReclaimsSafe(s, run) && AllClaimsFresh(s, run)
    ensures Bounded(Run(s, run)) && Exclusive(Run(s, run)) && Ids(Run(s, run))
    decreases |run|
  {
    if run != [] {
      BatchStep(s, run[0]);
      BoundedStep(s, run[0]);
      FreshClaimsBounded(Apply(s, run[0]), run[1..]);
    }
  }

  ghost predicate NoneClaiming(s: System) {
    forall w :: w in s.workers ==> !s.workers[w].Claiming?
  }

  // Claims in one transaction are always fresh, so with those the bounds need nothing else.
  lemma {:induction false} OneTransactionBounded(s: System, run: seq<Action>)
    requires Bounded(s) && Exclusive(s) && Ids(s) && NoneClaiming(s) && AllEnabled(s, run) && AllReclaimsSafe(s, run)
    requires forall k :: 0 <= k < |run| ==> !run[k].Select?
    ensures Bounded(Run(s, run)) && AllClaimsFresh(s, run)
    decreases |run|
  {
    if run != [] {
      BatchStep(s, run[0]);
      BoundedStep(s, run[0]);
      NoClaimBegins(s, run[0]);
      OneTransactionBounded(Apply(s, run[0]), run[1..]);
    }
  }

  lemma NoClaimBegins(s: System, a: Action)
    requires NoneClaiming(s) && Enabled(s, a) && !a.Select?
    ensures NoneClaiming(Apply(s, a))
  {
    forall w | w in Apply(s, a).workers
      ensures !Apply(s, a).workers[w].Claiming?
    {
      OthersHold(s, a, w);
    }
  }

  // ---------- one worker ----------

  // What a single worker has selected and not yet claimed cannot change under it.
  ghost predicate OneWorker(s: System) {
    s.workers.Keys == {0} && (s.workers[0].Claiming? ==> AllCurrent(s, s.workers[0].rest))
  }

  // With one worker reclaiming is always safe - it happens between batches - and so is
  // claiming in two statements.
  lemma OwnStepSafe(s: System, a: Action)
    requires OneWorker(s) && Ids(s) && Enabled(s, a)
    ensures SafeReclaims(s, a) && FreshClaim(s, a)
    ensures OneWorker(Apply(s, a))
  {
    match a
    case Enqueue(_, _) =>
      if s.workers[0].Claiming? {
        StillCurrent(s, a, s.workers[0].rest);
      }
    case Select(_, now) =>
      DueRowsCurrent(s, s.rows, now, 0, BATCH);
      StillCurrent(s, a, DueRows(s.rows, now, 0, s.nextId, BATCH));
    case ClaimOne(_) =>
      var rest := s.workers[0].rest;
      assert Current(s, rest[0]);
      assert forall i :: 0 <= i < |rest[1..]| ==> rest[1..][i] == rest[i + 1];
      StillCurrent(s, a, rest[1..]);
    case ClaimBatch(_, _, _) =>
    case Deliver(_, _, _, _) =>
    case Rest(_) =>
    case GiveUp(_) =>
    case Reclaim(_, _) =>
  }

  // Every run of one worker, crashes and failing statements included.
  lemma {:induction false} OneWorkerBounded(s: System, run: seq<Action>)
    requires OneWorker(s) && Bounded(s) && Exclusive(s) && Ids(s) && AllEnabled(s, run)
    ensures OneWorker(Run(s, run)) && Bounded(Run(s, run)) && Exclusive(Run(s, run)) && Ids(Run(s, run))
    ensures AllReclaimsSafe(s, run) && AllClaimsFresh(s, run)
    decreases |run|
  {
    if run != [] {
      OwnStepSafe(s, run[0]);
      BatchStep(s, run[0]);
      BoundedStep(s, run[0]);
      OneWorkerBounded(Apply(s, run[0]), run[1..]);
    }
  }

  // ---------- stale claims ----------

  // A carried count may be old, but it is never ahead of the row's.
  ghost predicate Behind(s: System, batch: seq<Claimed>) {
    forall i :: 0 <= i < |batch| ==> batch[i].id in s.rows && batch[i].attempts <= s.rows[batch[i].id].attempts
  }

  ghost predicate NeverAhead(s: System) {
    forall w {:trigger s.workers[w]} :: w in s.workers ==>
      Behind(s, Held(s.workers[w])) && (s.workers[w].Claiming? ==> Behind(s, s.workers[w].rest))
  }

  lemma AttemptsGrow(s: System, a: Action, id: nat)
    requires Ids(s) && Enabled(s, a) && id in s.rows
    ensures id in Apply(s, a).rows && Apply(s, a).rows[id].attempts >= s.rows[id].attempts
  {
    if !(a.Deliver? && s.workers[a.w].hand[0].id == id) {
      AttemptsKept(s, a, id);
    }
  }

  lemma StillBehind(s: System, a: Action, batch: seq<Claimed>)
    requires Ids(s) && Enabled(s, a) && Behind(s, batch)
    ensures Behind(Apply(s, a), batch)
  {
    forall i | 0 <= i < |batch|
      ensures batch[i].id in Apply(s, a).rows && batch[i].attempts <= Apply(s, a).rows[batch[i].id].attempts
    {
      AttemptsGrow(s, a, batch[i].id);
    }
  }

  lemma NeverAheadStep(s: System, a: Action)
    requires NeverAhead(s) && Ids(s) && Enabled(s, a)
    ensures NeverAhead(Apply(s, a))
  {
    var s' := Apply(s, a);
    forall w | w in s'.workers
      ensures Behind(s', Held(s'.workers[w])) && (s'.workers[w].Claiming? ==> Behind(s', s'.workers[w].rest))
    {
      OthersHold(s, a, w);
      StillBehind(s, a, Held(s.workers[w]));
      if s.workers[w].Claiming? {
        StillBehind(s, a, s.workers[w].rest);
      }
      if a.Select? {
        DueRowsCurrent(s, s.rows, a.now, 0, BATCH);
        SelectedBehind(s, a, DueRows(s.rows, a.now, 0, s.nextId, BATCH));
      } else if a.ClaimBatch? {
        DueRowsCurrent(s, s.rows - a.locked, a.now, 0, BATCH);
        SelectedBehind(s, a, DueRows(s.rows - a.locked, a.now, 0, s.nextId, BATCH));
      }
    }
  }

  lemma SelectedBehind(s: System, a: Action, batch: seq<Claimed>)
    requires Ids(s) && Enabled(s, a) && AllCurrent(s, batch)
    ensures Behind(Apply(s, a), batch)
  {
    assert forall i :: 0 <= i < |batch| ==> Current(s, batch[i]);
    StillBehind(s, a, batch);
  }

  // No mail still to be sent has more than three failed attempts.
  predicate LimitKept(rows: map<nat, Mail>) {
    forall id :: id in rows && !Terminal(rows[id]) ==> rows[id].attempts <= 3
  }

  // A recorded retry whose carried count is the row's, or whose row has room left.
  ghost predicate RoomLeft(s: System, a: Action)
    requires Enabled(s, a)
  {
    a.Deliver? && a.marked && a.result.Transient? ==>
      var c := s.workers[a.w].hand[0];
      c.attempts == s.rows[c.id].attempts || s.rows[c.id].attempts < 3
  }

  // One step keeps the limit exactly then.
  lemma LimitStepIff(s: System, a: Action)
    requires Exclusive(s) && Ids(s) && NeverAhead(s) && Enabled(s, a) && LimitKept(s.rows)
    ensures LimitKept(Apply(s, a).rows) <==> RoomLeft(s, a)
  {
    var s' := Apply(s, a);
    if a.Deliver? {
      var c := s.workers[a.w].hand[0];
      assert Holds(s, a.w, 0, c.id) && Behind(s, Held(s.workers[a.w])) && Held(s.workers[a.w])[0] == c;
      assert s.rows[c.id].state.Sending?;
      assert !RoomLeft(s, a) ==> s'.rows[c.id].attempts == 4 && s'.rows[c.id].state.Pending?;
    } else {
      forall id | id in s'.rows && !Terminal(s'.rows[id])
        ensures s'.rows[id].attempts <= 3
      {
        KnownOrNew(s, a, id);
        if id in s.rows {
          AttemptsKept(s, a, id);
          if Terminal(s.rows[id]) {
            TerminalStays(s, a, id);
          }
        }
      }
    }
  }

  ghost predicate AlwaysRoom(s: System, run: seq<Action>)
    requires AllEnabled(s, run)
    decreases |run|
  {
    run == [] || (RoomLeft(s, run[0]) && AlwaysRoom(Apply(s, run[0]), run[1..]))
  }

  ghost predicate AlwaysKept(s: System, run: seq<Action>)
    requires AllEnabled(s, run)
    decreases |run|
  {
    LimitKept(s.rows) && (run == [] || AlwaysKept(Apply(s, run[0]), run[1..]))
  }

  // Any number of workers, claiming in two statements: the retry limit holds throughout a
  // run exactly if no stale count is ever recorded on a row without room.
  lemma {:induction false} LimitRunIff(s: System, run: seq<Action>)
    requires Exclusive(s) && Ids(s) && NeverAhead(s) && LimitKept(s.rows) && AllEnabled(s, run) &&
             AllReclaimsSafe(s, run)
    ensures AlwaysKept(s, run) <==> AlwaysRoom(s, run)
    decreases |run|
  {
    if run != [] {
      LimitStepIff(s, run[0]);
      BatchStep(s, run[0]);
      NeverAheadStep(s, run[0]);
      if LimitKept(Apply(s, run[0]).rows) {
        LimitRunIff(Apply(s, run[0]), run[1..]);
      } else {
        assert !AlwaysKept(Apply(s, run[0]), run[1..]);
      }
    }
  }

  // ---------- reclaiming ----------

  // After a reclaim nothing is stuck, a second one at that time does nothing, and no mail
  // has lost or gained an attempt.
  lemma ReclaimSettles(rows: map<nat, Mail>, now: nat, id: nat)
    requires id in rows
    ensures id in Reclaimed(rows, now) && !Stuck(Reclaimed(rows, now)[id], now)
    ensures Reclaimed(rows, now)[id].state.Pending? <==>
            rows[id].state.Pending? || (rows[id].state.Sending? && rows[id].state.claimedAt + 300 < now)
    ensures Reclaimed(Reclaimed(rows, now), now) == Reclaimed(rows, now)
    ensures Reclaimed(rows, now)[id] == rows[id] || (rows[id].state.Sending? && Reclaimed(rows, now)[id].state.Pending?)
    ensures Reclaimed(rows, now)[id].attempts == rows[id].attempts && Reclaimed(rows, now)[id].due == rows[id].due
    ensures Due(Reclaimed(rows, now)[id], now) <==> Due(rows[id], now) || (Stuck(rows[id], now) && rows[id].due <= now)
  {
    var once := Reclaimed(rows, now);
    assert forall k :: k in once ==> !Stuck(once[k], now);
  }

  // ---------- what several workers can do ----------

  // A claimant that is still at work when its mail is reclaimed: the next worker to claim
  // the mail holds it as well, and both will send it.
  lemma SecondClaimant(s: System, v: nat, i: nat, w: nat, now: nat)
    requires v != w && Enabled(s, ClaimOne(w)) && Holds(s, v, i, s.workers[w].rest[0].id)
    requires s.rows[s.workers[w].rest[0].id].known && Stuck(s.rows[s.workers[w].rest[0].id], now)
    ensures
      var id, k := s.workers[w].rest[0].id, s.workers[w];
      var s' := Apply(s.(rows := Reclaimed(s.rows, now)), ClaimOne(w));
      Holds(s', v, i, id) && Holds(s', w, |k.out|, id)
  {
  }

  // ---------- reaching a state ----------

  ghost predicate Reaches(s: System, s': System) {
    exists run :: AllEnabled(s, run) && Run(s, run) == s'
  }

  lemma {:induction false} RunTogether(s: System, a: seq<Action>, b: seq<Action>)
    requires AllEnabled(s, a) && AllEnabled(Run(s, a), b)
    ensures AllEnabled(s, a + b) && Run(s, a + b) == Run(Run(s, a), b)
    decreases |a|
  {
    if a == [] {
      assert a + b == b;
    } else {
      assert (a + b)[0] == a[0] && (a + b)[1..] == a[1..] + b;
      RunTogether(Apply(s, a[0]), a[1..], b);
    }
  }

  lemma ReachesOn(s: System, s1: System, s2: System)
    requires Reaches(s, s1) && Reaches(s1, s2)
    ensures Reaches(s, s2)
  {
    var a :| AllEnabled(s, a) && Run(s, a) == s1;
    var b :| AllEnabled(s1, b) && Run(s1, b) == s2;
    RunTogether(s, a, b);
  }

  lemma OneStep(s: System, a: Action)
    requires Enabled(s, a)
    ensures Reaches(s, Apply(s, a))
  {
    var run, s' := [a], Apply(s, a);
    assert run[0] == a && run[1..] == [];
    assert AllEnabled(s', run[1..]) && Run(s', run[1..]) == s';
    assert AllEnabled(s, run);
    assert Run(s, run) == s';
  }

  lemma ThenStep(s: System, s1: System, a: Action, s2: System)
    requires Reaches(s, s1) && Enabled(s1, a) && Apply(s1, a) == s2
    ensures Reaches(s, s2)
  {
    OneStep(s1, a);
    ReachesOn(s, s1, s2);
  }

  lemma ThreeSteps(s: System, a: Action, b: Action, c: Action)
    requires Enabled(s, a) && Enabled(Apply(s, a), b) && Enabled(Apply(Apply(s, a), b), c)
    ensures Reaches(s, Apply(Apply(Apply(s, a), b), c))
  {
    ReachesSelf(s);
    ThenStep(s, s, a, Apply(s, a));
    ThenStep(s, Apply(s, a), b, Apply(Apply(s, a), b));
    ThenStep(s, Apply(Apply(s, a), b), c, Apply(Apply(Apply(s, a), b), c));
  }

  lemma ReachesSelf(s: System)
    ensures Reaches(s, s)
  {
    assert AllEnabled(s, []) && Run(s, []) == s;
  }

  // Selecting and claiming are two statements.  Worker 1 has selected the only mail when it
  // was new; worker 0 has meanwhile failed to send it `attempts` times.
  function Raced(m: Mail, sends: nat, k: Worker): System {
    System(map[0 := m], 1, map[0 := Log(sends, 0)], map[0 := k, 1 := Claiming(0, [Claimed(0, 0)], [])])
  }

  function Waiting(attempts: nat, due: nat): System {
    Raced(Mail(Pending, attempts, due, true), attempts, Idle)
  }

  lemma RoundFails(attempts: nat, due: nat)
    requires attempts < 3
    ensures Reaches(Waiting(attempts, due), Waiting(attempts + 1, due + Backoff(attempts)))
  {
    var c, s := Claimed(0, attempts), Waiting(attempts, due);
    var m, m' := Mail(Pending, attempts, due, true), Mail(Sending(due), attempts, due, true);
    var r1 := Raced(m, attempts, Claiming(due, [c], []));
    var r2 := Raced(m', attempts, Claiming(due, [], [c]));
    assert DueRows(map[0 := m], due, 0, 1, BATCH) == [c];
    assert Apply(s, Select(0, due)) == r1;
    assert Apply(r1, ClaimOne(0)) == r2 by { assert [c][1..] == [] && [] + [c] == [c]; }
    RoundEnds(attempts, due);
    TwoThen(s, Select(0, due), ClaimOne(0), r2, Waiting(attempts + 1, due + Backoff(attempts)));
  }

  lemma TwoThen(s: System, a: Action, b: Action, s2: System, s3: System)
    requires Enabled(s, a) && Enabled(Apply(s, a), b) && Apply(Apply(s, a), b) == s2 && Reaches(s2, s3)
    ensures Reaches(s, s3)
  {
    ReachesSelf(s);
    ThenStep(s, s, a, Apply(s, a));
    ThenStep(s, Apply(s, a), b, s2);
    ReachesOn(s, s2, s3);
  }

  lemma RoundEnds(attempts: nat, due: nat)
    requires attempts < 3
    ensures
      var r2 := Raced(Mail(Sending(due), attempts, due, true), attempts, Claiming(due, [], [Claimed(0, attempts)]));
      Reaches(r2, Waiting(attempts + 1, due + Backoff(attempts)))
  {
    var c, m' := Claimed(0, attempts), Mail(Sending(due), attempts, due, true);
    var later := Mail(Pending, attempts + 1, due + Backoff(attempts), true);
    var r2 := Raced(m', attempts, Claiming(due, [], [c]));
    var r3 := Raced(m', attempts, Draining([c]));
    var r4 := Raced(later, attempts + 1, Draining([]));
    var r5 := Waiting(attempts + 1, due + Backoff(attempts));
    assert Apply(r2, Rest(0)) == r3;
    assert Apply(r3, Deliver(0, due, Transient, true)) == r4 by { assert [c][1..] == []; }
    assert Apply(r4, Rest(0)) == r5;
    ThreeSteps(r2, Rest(0), Deliver(0, due, Transient, true), Rest(0));
  }

  function TwoWorkers(): System {
    System(map[], 0, map[], map[0 := Idle, 1 := Idle])
  }

  // Once worker 0 has used up three retries, worker 1 still believes it is at the first: its
  // failure makes the mail pending a fourth time.
  lemma StaleAttemptsExceedLimit()
    ensures exists s :: Reaches(TwoWorkers(), s) && s.rows == map[0 := Mail(Pending, 4, 2220, true)]
  {
    var start := TwoWorkers();
    RacedReached(start);
    ThreeRounds(start);
    LateClaim(start);
  }

  lemma ThreeRounds(start: System)
    requires Reaches(start, Waiting(0, 0))
    ensures Reaches(start, Waiting(3, 2160))
  {
    AnotherRound(start, 0, 0);
    AnotherRound(start, 1, 60);
    AnotherRound(start, 2, 360);
  }

  lemma AnotherRound(start: System, attempts: nat, due: nat)
    requires attempts < 3 && Reaches(start, Waiting(attempts, due))
    ensures Reaches(start, Waiting(attempts + 1, due + Backoff(attempts)))
  {
    RoundFails(attempts, due);
    ReachesOn(start, Waiting(attempts, due), Waiting(attempts + 1, due + Backoff(attempts)));
  }

  lemma RacedReached(s: System)
    requires s == TwoWorkers()
    ensures Reaches(s, Waiting(0, 0))
  {
    ReachesSelf(s);
    var s1 := Apply(s, Enqueue(0, true));
    ThenStep(s, s, Enqueue(0, true), s1);
    assert DueRows(s1.rows, 0, 0, 1, BATCH) == [Claimed(0, 0)];
    assert Apply(s1, Select(1, 0)) == Waiting(0, 0);
    ThenStep(s, s1, Select(1, 0), Waiting(0, 0));
  }

  lemma LateClaim(start: System)
    requires Reaches(start, Waiting(3, 2160))
    ensures exists s :: Reaches(start, s) && s.rows == map[0 := Mail(Pending, 4, 2220, true)]
  {
    var s := Waiting(3, 2160);
    var s1 := Apply(s, ClaimOne(1));
    var s2 := Apply(s1, Rest(1));
    assert s2.workers[1] == Draining([Claimed(0, 0)]);
    ThreeSteps(s, ClaimOne(1), Rest(1), Deliver(1, 2160, Transient, true));
    ReachesOn(start, s, Apply(s2, Deliver(1, 2160, Transient, true)));
  }
}
