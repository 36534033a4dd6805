// The mail queue's statements and the worker's loop.  The environment - the clock, failing
// statements, the mailer's answers - is a list of events, one for each call that leaves the
// process.  Each call is tied to a step of the state machine of MailSystem.
module MailWorkers {
  import opened Wrappers
  import opened MailSystem
  import opened MailProgress
  import opened MailOutcomes

  datatype QueueError = Db | UnknownEventType

  datatype Event = Event(works: bool, elapsed: nat, answer: Delivery)

  // Claiming the mails before it leaves the k-th selected mail as it was.
  lemma StillPending(rows: map<nat, Mail>, batch: seq<Claimed>, now: nat, k: nat)
    requires k < |batch| && batch[k].id in rows && forall i, j :: 0 <= i < j < |batch| ==> batch[i].id < batch[j].id
    ensures batch[k].id in ClaimAll(rows, batch[..k], now) &&
            ClaimAll(rows, batch[..k], now)[batch[k].id] == rows[batch[k].id]
  {
    ClaimAllIs(rows, batch[..k], now, batch[k].id);
    forall i | 0 <= i < |batch[..k]|
      ensures batch[..k][i].id != batch[k].id
    {
      assert batch[..k][i] == batch[i];
    }
  }

  // Past the end of the list everything works at once.
  function EventAt(events: seq<Event>, k: nat): Event {
    if k < |events| then events[k] else Event(true, 0, Accepted)
  }

  predicate UnknownAt(rows: map<nat, Mail>, batch: seq<Claimed>, k: nat) {
    k < |batch| && batch[k].id in rows && !rows[batch[k].id].known
  }

  predicate SomethingFailed(events: seq<Event>, from: nat, upto: nat) {
    exists k :: from <= k < upto && k < |events| && !events[k].works
  }

  lemma FailedEarlier(events: seq<Event>, a: nat, b: nat, c: nat)
    requires a <= b <= c
    ensures SomethingFailed(events, a, b) || SomethingFailed(events, b, c) ==> SomethingFailed(events, a, c)
  {
  }

  lemma FailedLater(events: seq<Event>, a: nat, b: nat, c: nat)
    requires b <= c
    ensures SomethingFailed(events, a, b) ==> SomethingFailed(events, a, c)
  {
  }

  function IdsOf(batch: seq<Claimed>): seq<nat> {
    if batch == [] then [] else [batch[0].id] + IdsOf(batch[1..])
  }

  lemma SentOneMore(delivered: seq<nat>, rest: seq<Claimed>)
    requires rest != []
    ensures delivered + IdsOf(rest) == (delivered + [rest[0].id]) + IdsOf(rest[1..])
  {
  }

  class MailQueue {
    var rows: map<nat, Mail>
    var nextId: nat
    var clock: nat
    // The environment, and how much of it has happened.
    const events: seq<Event>
    var pos: nat

    constructor (events: seq<Event>)
      ensures rows == map[] && nextId == 0 && clock == 0 && pos == 0 && this.events == events
    {
      rows := map[];
      nextId := 0;
      clock := 0;
      this.events := events;
      pos := 0;
    }

    method Next() returns (e: Event)
      modifies this`clock, this`pos
      ensures pos == old(pos) + 1 && clock == old(clock) + e.elapsed
      ensures e == EventAt(events, old(pos))
    {
      e := EventAt(events, pos);
      pos := pos + 1;
      clock := clock + e.elapsed;
    }

    method Enqueue(known: bool) returns (r: Result<nat, QueueError>)
      modifies this
      ensures pos >= old(pos) && clock >= old(clock)
      ensures r.Ok? ==> r.value == old(nextId) && nextId == old(nextId) + 1 &&
                        rows == old(rows)[old(nextId) := Mail(Pending, 0, clock, known)]
      ensures r.Err? ==> rows == old(rows) && nextId == old(nextId)
    {
      var e := Next();
      if !e.works {
        return Err(Db);
      }
      rows := rows[nextId := Mail(Pending, 0, clock, known)];
      nextId := nextId + 1;
      return Ok(nextId - 1);
    }

    // Select, then claim row by row.  An error in the middle leaves the rows claimed so far
    // in state Sending, with nobody to send them until they are reclaimed.
    method ClaimBatch(limit: nat) returns (now: nat, ghost claimed: seq<Claimed>, r: Result<seq<Claimed>, QueueError>)
      modifies this`rows, this`clock, this`pos
      ensures pos >= old(pos)
      ensures clock >= now >= old(clock)
      ensures claimed <= DueRows(old(rows), now, 0, nextId, limit)
      ensures rows == ClaimAll(old(rows), claimed, now)
      ensures r.Ok? ==> r.value == claimed == DueRows(old(rows), now, 0, nextId, limit)
      ensures r == Err(UnknownEventType) ==>
                UnknownAt(old(rows), DueRows(old(rows), now, 0, nextId, limit), |claimed|)
      ensures forall c :: c in claimed ==> c.id in old(rows) && old(rows)[c.id].known
      ensures r == Err(Db) ==> SomethingFailed(events, old(pos), pos)
    {
      claimed := [];
      var e := Next();
      now := clock;
      ghost var rows0 := rows;
      if !e.works {
        return now, claimed, Err(Db);
      }
      DueRowsAre(rows, now, 0, nextId, limit);
      var selected := DueRows(rows, now, 0, nextId, limit);
      var out := [];
      for k := 0 to |selected|
        invariant claimed == out == selected[..k] && rows == ClaimAll(rows0, claimed, now) && clock >= now &&
                  pos >= old(pos)
        invariant forall c :: c in claimed ==> c.id in rows0 && rows0[c.id].known
      {
        var c := selected[k];
        StillPending(rows0, selected, now, k);
        if !rows[c.id].known {
          return now, claimed, Err(UnknownEventType);
        }
        e := Next();
        if !e.works {
          return now, claimed, Err(Db);
        }
        ClaimOneMore(rows0, selected, now, k);
        rows := Claim(rows, c.id, now);
        out := out + [c];
        claimed := out;
      }
      assert selected[..|selected|] == selected;
      return now, claimed, Ok(out);
    }

    method MarkSent(id: nat) returns (ok: bool)
      modifies this`rows, this`clock, this`pos
      ensures pos >= old(pos)
      ensures clock >= old(clock)
      ensures rows == if ok && id in old(rows) then old(rows)[id := old(rows)[id].(state := Sent)] else old(rows)
    {
      var e := Next();
      if e.works && id in rows {
        rows := rows[id := rows[id].(state := Sent)];
      }
      return e.works;
    }

    method MarkFailedRetry(id: nat, attempts: nat) returns (ok: bool)
      modifies this`rows, this`clock, this`pos
      ensures pos >= old(pos)
      ensures clock >= old(clock)
      ensures rows == if ok && id in old(rows)
                      then old(rows)[id := Mail(Pending, old(rows)[id].attempts + 1, clock + Backoff(attempts),
                                                old(rows)[id].known)]
                      else old(rows)
    {
      var e := Next();
      if e.works && id in rows {
        rows := rows[id := rows[id].(state := Pending, attempts := rows[id].attempts + 1,
                                     due := clock + Backoff(attempts))];
      }
      return e.works;
    }

    method MarkFailedPermanent(id: nat) returns (ok: bool)
      modifies this`rows, this`clock, this`pos
      ensures pos >= old(pos)
      ensures clock >= old(clock)
      ensures rows == if ok && id in old(rows)
                      then old(rows)[id := old(rows)[id].(state := State.Failed,
                                                          attempts := old(rows)[id].attempts + 1)]
                      else old(rows)
    {
      var e := Next();
      if e.works && id in rows {
        rows := rows[id := rows[id].(state := State.Failed, attempts := rows[id].attempts + 1)];
      }
      return e.works;
    }

    method ReclaimStuck() returns (ok: bool)
      modifies this`rows, this`clock, this`pos
      ensures clock >= old(clock)
      ensures rows == if ok then Reclaimed(old(rows), clock) else old(rows)
      ensures pos == old(pos) + 1 && (!ok ==> SomethingFailed(events, old(pos), pos))
    {
      var e := Next();
      if e.works {
        rows := Reclaimed(rows, clock);
      }
      return e.works;
    }
  }

  // The machine after worker 0 has selected a batch and claimed the first k of it.
  ghost function Midway(s: System, now: nat, batch: seq<Claimed>, k: nat): System
    requires k <= |batch|
  {
    System(ClaimAll(s.rows, batch[..k], now), s.nextId, s.log, s.workers[0 := Claiming(now, batch[k..], batch[..k])])
  }

  lemma {:induction false} ClaimingReaches(s: System, now: nat, k: nat)
    requires 0 in s.workers && s.workers[0].Idle? && k <= |DueRows(s.rows, now, 0, s.nextId, BATCH)|
    requires forall c :: c in DueRows(s.rows, now, 0, s.nextId, BATCH)[..k] ==> c.id in s.rows && s.rows[c.id].known
    ensures Reaches(s, Midway(s, now, DueRows(s.rows, now, 0, s.nextId, BATCH), k))
    decreases k
  {
    var batch := DueRows(s.rows, now, 0, s.nextId, BATCH);
    if k == 0 {
      assert batch[0..] == batch && batch[..0] == [];
      ReachesSelf(s);
      ThenStep(s, s, Select(0, now), Midway(s, now, batch, 0));
    } else {
      ClaimingReaches(s, now, k - 1);
      ClaimStep(s, now, batch, k - 1);
      ThenStep(s, Midway(s, now, batch, k - 1), ClaimOne(0), Midway(s, now, batch, k));
    }
  }

  lemma ClaimStep(s: System, now: nat, batch: seq<Claimed>, k: nat)
    requires 0 in s.workers && batch == DueRows(s.rows, now, 0, s.nextId, BATCH) && k < |batch|
    requires batch[k].id in s.rows && s.rows[batch[k].id].known
    ensures Enabled(Midway(s, now, batch, k), ClaimOne(0))
    ensures Apply(Midway(s, now, batch, k), ClaimOne(0)) == Midway(s, now, batch, k + 1)
  {
    DueRowsAre(s.rows, now, 0, s.nextId, BATCH);
    ClaimAllIs(s.rows, batch[..k], now, batch[k].id);
    ClaimOneMore(s.rows, batch, now, k);
    assert batch[k..][0] == batch[k] && batch[k..][1..] == batch[k + 1..] && batch[..k] + [batch[k]] == batch[..k + 1];
    assert ClaimAll(s.rows, batch[..k], now)[batch[k].id].state.Pending?;
  }

  lemma FetchedDue(s: System, now: nat, claimed: seq<Claimed>, s': System, clock: nat)
    requires claimed <= DueRows(s.rows, now, 0, s.nextId, BATCH) && now <= clock
    requires s'.rows == ClaimAll(s.rows, claimed, now)
    ensures WereDue(s'.rows, claimed, clock)
  {
    DueRowsAre(s.rows, now, 0, s.nextId, BATCH);
    ClaimedQuiet(s.rows, claimed, now);
    forall i | 0 <= i < |claimed|
      ensures claimed[i] == DueRows(s.rows, now, 0, s.nextId, BATCH)[i]
    {
    }
  }

  function Count(ids: seq<nat>, id: nat): nat {
    if ids == [] then 0 else Count(ids[..|ids| - 1], id) + (if ids[|ids| - 1] == id then 1 else 0)
  }

  ghost predicate Healthy(s: System) {
    OneWorker(s) && Bounded(s) && Exclusive(s) && Ids(s)
  }

  // Each answer is what the mailer said, at a call of its own.
  ghost predicate FromMailer(events: seq<Event>, pos: nat, asked: seq<nat>, answers: seq<Attempt>) {
    && |asked| == |answers|
    && (forall i :: 0 <= i < |asked| ==> asked[i] < pos && answers[i].answer == EventAt(events, asked[i]).answer)
    && (forall i, j :: 0 <= i < j < |asked| ==> asked[i] < asked[j])
  }

  ghost predicate SameMails(delivered: seq<nat>, answers: seq<Attempt>) {
    |delivered| == |answers| && forall i :: 0 <= i < |delivered| ==> delivered[i] == answers[i].id
  }

  // Claimed mails were due.
  ghost predicate WereDue(rows: map<nat, Mail>, hand: seq<Claimed>, clock: nat) {
    forall i :: 0 <= i < |hand| ==> hand[i].id in rows && rows[hand[i].id].due <= clock
  }

  // What the worker knows of its mails.
  ghost predicate Informed(rows: map<nat, Mail>, delivered: seq<nat>, answers: seq<Attempt>, asked: seq<nat>,
                           events: seq<Event>, pos: nat) {
    && SameMails(delivered, answers) && FromMailer(events, pos, asked, answers)
    && AllExplained(answers, rows) && Spaced(answers)
  }

  lemma InformedLater(rows: map<nat, Mail>, rows': map<nat, Mail>, delivered: seq<nat>, answers: seq<Attempt>,
                      asked: seq<nat>, events: seq<Event>, pos: nat, pos': nat)
    requires Informed(rows, delivered, answers, asked, events, pos) && pos <= pos'
    requires rows'.Keys == rows.Keys && forall id :: id in rows ==> Quiet(rows[id], rows'[id])
    ensures Informed(rows', delivered, answers, asked, events, pos')
  {
    QuietExplained(answers, rows, rows');
  }

  // One more answer.
  lemma InformedNow(s: System, t: Attempt, delivered: seq<nat>, answers: seq<Attempt>, asked: seq<nat>,
                    events: seq<Event>, at: nat, pos': nat)
    requires Informed(s.rows, delivered, answers, asked, events, at) && at < pos'
    requires t.id in s.rows && s.rows[t.id].state.Sending? && s.rows[t.id].due <= t.now
    requires t.answer == EventAt(events, at).answer
    ensures Informed(if t.recorded then s.rows[t.id := Marked(s.rows[t.id], t.carried, t.answer, t.now)] else s.rows,
                     delivered + [t.id], answers + [t], asked + [at], events, pos')
  {
    AnsweredExplained(answers, s.rows, t);
    assert Explained(answers, t.id, s.rows[t.id]);
    SpacedOn(answers, s.rows[t.id], t);
  }

  // Marking the first mail of a batch leaves the rest as it was.
  lemma StillDue(s: System, c: Claimed, rest: seq<Claimed>, m: Mail, now: nat, clock: nat)
    requires Exclusive(s) && 0 in s.workers && s.workers[0] == Draining([c] + rest) && now <= clock
    requires WereDue(s.rows, [c] + rest, now)
    ensures WereDue(s.rows, rest, clock) && WereDue(s.rows[c.id := m], rest, clock)
  {
    forall i | 0 <= i < |rest|
      ensures rest[i].id != c.id && rest[i].id in s.rows && s.rows[rest[i].id].due <= clock
    {
      assert ([c] + rest)[i + 1] == rest[i];
      assert Holds(s, 0, 0, c.id) && Holds(s, 0, i + 1, rest[i].id);
    }
  }

  lemma ClaimedQuiet(rows: map<nat, Mail>, batch: seq<Claimed>, now: nat)
    ensures ClaimAll(rows, batch, now).Keys == rows.Keys
    ensures forall id :: id in rows ==> Quiet(rows[id], ClaimAll(rows, batch, now)[id])
  {
    forall id
      ensures id in ClaimAll(rows, batch, now) <==> id in rows
      ensures id in rows ==> Quiet(rows[id], ClaimAll(rows, batch, now)[id])
    {
      ClaimAllIs(rows, batch, now, id);
    }
  }

  lemma ReachesHealthy(s: System, s': System)
    requires Healthy(s) && Reaches(s, s')
    ensures Healthy(s')
    ensures forall id :: id in s.rows && Terminal(s.rows[id]) ==> id in s'.rows && s'.rows[id] == s.rows[id]
  {
    var run :| AllEnabled(s, run) && MailSystem.Run(s, run) == s';
    OneWorkerBounded(s, run);
    forall id | id in s.rows && Terminal(s.rows[id])
      ensures id in s'.rows && s'.rows[id] == s.rows[id]
    {
      TerminalForever(s, run, id);
    }
  }

  // The log counts what the mailer was given.
  ghost predicate Counted(delivered: seq<nat>, log: map<nat, Log>) {
    forall id :: Count(delivered, id) == if id in log then log[id].sends else 0
  }

  lemma DeliveryStep(s: System, c: Claimed, rest: seq<Claimed>, delivered: seq<nat>, now: nat, answer: Delivery,
                     ok: bool)
    requires Healthy(s) && s.workers[0] == Draining([c] + rest) && Counted(delivered, s.log)
    ensures
      var a := Deliver(0, now, answer, ok);
      && Enabled(s, a) && Reaches(s, Apply(s, a)) && Healthy(Apply(s, a))
      && Apply(s, a).workers[0] == Draining(rest) && Counted(delivered + [c.id], Apply(s, a).log)
      && c.id in s.rows && Apply(s, a).rows ==
           (if ok then s.rows[c.id := Marked(s.rows[c.id], c.attempts, answer, now)] else s.rows)
      && Apply(s, a).nextId == s.nextId
  {
    var a := Deliver(0, now, answer, ok);
    assert ([c] + rest)[0] == c && ([c] + rest)[1..] == rest;
    assert Holds(s, 0, 0, c.id);
    OwnStepSafe(s, a);
    BatchStep(s, a);
    BoundedStep(s, a);
    ReachesSelf(s);
    ThenStep(s, s, a, Apply(s, a));
    forall id
      ensures Count(delivered + [c.id], id) == Count(delivered, id) + (if id == c.id then 1 else 0)
    {
      assert (delivered + [c.id])[..|delivered|] == delivered;
    }
  }

  // The machine's state and what the worker knows fit the rows of the queue.
  ghost predicate Consistent(s: System, rows: map<nat, Mail>, nextId: nat, delivered: seq<nat>, answers: seq<Attempt>,
                             asked: seq<nat>, events: seq<Event>, pos: nat, clock: nat) {
    && s.rows == rows && s.nextId == nextId && Healthy(s) && Counted(delivered, s.log)
    && Informed(rows, delivered, answers, asked, events, pos)
    && (s.workers[0].Draining? ==> WereDue(rows, s.workers[0].hand, clock))
  }

  // The answer for the first mail in hand is one more step of the machine.
  lemma Answered(s: System, c: Claimed, rest: seq<Claimed>, delivered: seq<nat>, answers: seq<Attempt>,
                 asked: seq<nat>, events: seq<Event>, at: nat, clock: nat, t: Attempt, pos': nat)
    returns (s': System)
    requires Consistent(s, s.rows, s.nextId, delivered, answers, asked, events, at, clock)
    requires s.workers[0] == Draining([c] + rest) && t.id == c.id && t.carried == c.attempts
    requires t.answer == EventAt(events, at).answer && clock <= t.now && at < pos'
    ensures Reaches(s, s') && s'.workers.Keys == {0} && s'.workers[0] == Draining(rest)
    ensures c.id in s.rows && s'.rows ==
              (if t.recorded then s.rows[c.id := Marked(s.rows[c.id], t.carried, t.answer, t.now)] else s.rows)
    ensures Consistent(s', s'.rows, s.nextId, delivered + [c.id], answers + [t], asked + [at], events, pos', t.now)
  {
    InHand(s, c, rest);
    InformedNow(s, t, delivered, answers, asked, events, at, pos');
    StillDue(s, c, rest, Marked(s.rows[c.id], t.carried, t.answer, t.now), clock, t.now);
    DeliveryStep(s, c, rest, delivered, t.now, t.answer, t.recorded);
    s' := Apply(s, Deliver(0, t.now, t.answer, t.recorded));
  }

  lemma InHand(s: System, c: Claimed, rest: seq<Claimed>)
    requires Healthy(s) && s.workers[0] == Draining([c] + rest)
    ensures c.id in s.rows && s.rows[c.id].state.Sending? && ([c] + rest)[0] == c
  {
    assert ([c] + rest)[0] == c;
    assert Holds(s, 0, 0, c.id);
  }

  // The machine after a claim of k mails that went through or was given up.
  ghost function AfterClaim(s: System, now: nat, k: nat, done: bool): System
    requires 0 in s.workers && k <= |DueRows(s.rows, now, 0, s.nextId, BATCH)|
  {
    var due := DueRows(s.rows, now, 0, s.nextId, BATCH);
    System(ClaimAll(s.rows, due[..k], now), s.nextId, s.log, s.workers[0 := if done then Draining(due[..k]) else Idle])
  }

  lemma ClaimReaches(s: System, now: nat, k: nat, done: bool)
    requires Healthy(s) && s.workers[0].Idle? && k <= |DueRows(s.rows, now, 0, s.nextId, BATCH)|
    requires forall c :: c in DueRows(s.rows, now, 0, s.nextId, BATCH)[..k] ==> c.id in s.rows && s.rows[c.id].known
    requires done ==> k == |DueRows(s.rows, now, 0, s.nextId, BATCH)|
    ensures Reaches(s, AfterClaim(s, now, k, done)) && Healthy(AfterClaim(s, now, k, done))
  {
    var due := DueRows(s.rows, now, 0, s.nextId, BATCH);
    var s1, last := Midway(s, now, due, k), if done then Rest(0) else GiveUp(0);
    ClaimingReaches(s, now, k);
    assert due[|due|..] == [];
    assert Apply(s1, last) == AfterClaim(s, now, k, done);
    ThenStep(s, s1, last, AfterClaim(s, now, k, done));
    ReachesHealthy(s, AfterClaim(s, now, k, done));
  }

  lemma ClaimedConsistent(s: System, now: nat, k: nat, done: bool, delivered: seq<nat>, answers: seq<Attempt>,
                          asked: seq<nat>, events: seq<Event>, pos: nat, clock: nat, pos': nat, clock': nat)
    requires Consistent(s, s.rows, s.nextId, delivered, answers, asked, events, pos, clock) && s.workers[0].Idle?
    requires k <= |DueRows(s.rows, now, 0, s.nextId, BATCH)| && pos <= pos' && now <= clock'
    requires Healthy(AfterClaim(s, now, k, done))
    ensures
      var s' := AfterClaim(s, now, k, done);
      Consistent(s', s'.rows, s.nextId, delivered, answers, asked, events, pos', clock')
  {
    var due, s' := DueRows(s.rows, now, 0, s.nextId, BATCH), AfterClaim(s, now, k, done);
    ClaimedQuiet(s.rows, due[..k], now);
    InformedLater(s.rows, s'.rows, delivered, answers, asked, events, pos, pos');
    FetchedDue(s, now, due[..k], s', clock');
  }

  class MailWorker {
    const queue: MailQueue
    var cycles: nat
    // The ids handed to the mailer, in order.
    var delivered: seq<nat>
    ghost var sys: System
    // What the mailer answered, and which events those answers were.
    ghost var answers: seq<Attempt>
    ghost var asked: seq<nat>

    ghost predicate Valid()
      reads this, queue
    {
      Consistent(sys, queue.rows, queue.nextId, delivered, answers, asked, queue.events, queue.pos, queue.clock)
    }

    constructor (queue: MailQueue)
      requires queue.rows == map[] && queue.nextId == 0
      ensures Valid() && this.queue == queue && sys == Start({0}) && cycles == 0
    {
      this.queue := queue;
      cycles := 0;
      delivered := [];
      sys := Start({0});
      answers, asked := [], [];
      new;
      assert forall w, i, id {:trigger Holds(sys, w, i, id)} :: !Holds(sys, w, i, id);
    }

    // A mail put on the queue between two turns.
    method Submit(known: bool) returns (r: Result<nat, QueueError>)
      requires Valid() && sys.workers[0] == Idle
      modifies this`sys, queue
      ensures Valid() && sys.workers[0] == Idle && Reaches(old(sys), sys)
      ensures r.Ok? ==>
                queue.rows == old(queue.rows)[r.value := Mail(Pending, 0, queue.clock, known)] &&
                r.value !in old(queue.rows)
      ensures r.Err? ==> queue.rows == old(queue.rows)
    {
      ghost var s0 := sys;
      ReachesSelf(s0);
      r := queue.Enqueue(known);
      if r.Ok? {
        NewExplained(answers, s0.rows, r.value, queue.rows[r.value]);
        ThenStep(s0, s0, Enqueue(queue.clock, known), Apply(s0, Enqueue(queue.clock, known)));
        Step(Enqueue(queue.clock, known));
      }
    }

    ghost method Step(a: Action)
      requires Healthy(sys) && Enabled(sys, a)
      modifies this`sys
      ensures sys == Apply(old(sys), a) && Healthy(sys)
    {
      OwnStepSafe(sys, a);
      BatchStep(sys, a);
      BoundedStep(sys, a);
      sys := Apply(sys, a);
    }

    method Record(c: Claimed, answer: Delivery) returns (ok: bool)
      requires c.id in queue.rows
      modifies queue`rows, queue`clock, queue`pos
      ensures queue.pos >= old(queue.pos) && queue.clock >= old(queue.clock)
      ensures queue.rows == if ok
                            then old(queue.rows)[c.id := Marked(old(queue.rows)[c.id], c.attempts, answer, queue.clock)]
                            else old(queue.rows)
    {
      if answer.Accepted? {
        ok := queue.MarkSent(c.id);
      } else if answer.Transient? && c.attempts < 3 {
        ok := queue.MarkFailedRetry(c.id, c.attempts);
      } else {
        ok := queue.MarkFailedPermanent(c.id);
      }
    }

    // Send one claimed mail and record the outcome.
    method SendOne(c: Claimed, ghost rest: seq<Claimed>)
      requires Valid() && sys.workers[0] == Draining([c] + rest)
      modifies this`delivered, this`sys, this`answers, this`asked, queue`rows, queue`clock, queue`pos
      ensures queue.pos >= old(queue.pos)
      ensures Valid() && sys.workers[0] == Draining(rest) && delivered == old(delivered) + [c.id]
      ensures Reaches(old(sys), sys) && old(answers) <= answers
    {
      ghost var s0, clock0, pos0 := sys, queue.clock, queue.pos;
      InHand(s0, c, rest);
      var e := queue.Next();
      var ok := Record(c, e.answer);
      ghost var t := Attempt(c.id, c.attempts, e.answer, queue.clock, ok);
      ghost var s1 := Answered(s0, c, rest, delivered, answers, asked, queue.events, pos0, clock0, t, queue.pos);
      delivered := delivered + [c.id];
      sys, answers, asked := s1, answers + [t], asked + [pos0];
    }

    // Claim up to eight mails.  Whatever is not claimed to the end is given up.
    method Fetch() returns (ghost now: nat, batch: Option<seq<Claimed>>)
      requires Valid() && sys.workers[0] == Idle
      modifies this`sys, queue`rows, queue`clock, queue`pos
      ensures queue.pos >= old(queue.pos)
      ensures Valid() && Reaches(old(sys), sys)
      ensures batch.Some? ==> sys.workers[0] == Draining(batch.value) && |batch.value| <= BATCH
      ensures batch.None? ==> sys.workers[0] == Idle
      ensures batch.Some? ==>
                batch.value == DueRows(old(queue.rows), now, 0, queue.nextId, BATCH) &&
                forall c :: c in batch.value ==> c.id in old(queue.rows) && old(queue.rows)[c.id].known
      ensures batch.None? ==>
                SomethingFailed(queue.events, old(queue.pos), queue.pos) ||
                exists k :: UnknownAt(old(queue.rows), DueRows(old(queue.rows), now, 0, queue.nextId, BATCH), k)
      ensures batch.Some? ==>
                (batch.value != [] <==> SomethingDue(old(queue.rows), now)) && Passable(old(queue.rows), now)
      ensures batch.None? ==>
                SomethingFailed(queue.events, old(queue.pos), queue.pos) || !Passable(old(queue.rows), now)
    {
      ghost var s0 := sys;
      var at, claimed, r := queue.ClaimBatch(BATCH);
      now := at;
      ghost var due := DueRows(s0.rows, now, 0, s0.nextId, BATCH);
      assert claimed == due[..|claimed|];
      DueRowsAre(s0.rows, now, 0, s0.nextId, BATCH);
      AllKnownIff(s0.rows, now, s0.nextId);
      ClaimReaches(s0, now, |claimed|, r.Ok?);
      ClaimedConsistent(s0, now, |claimed|, r.Ok?, delivered, answers, asked, queue.events, old(queue.pos),
                        old(queue.clock), queue.pos, queue.clock);
      sys := AfterClaim(s0, now, |claimed|, r.Ok?);
      assert r == Err(Db) ==> SomethingFailed(queue.events, old(queue.pos), queue.pos);
      assert r == Err(UnknownEventType) ==> UnknownAt(s0.rows, due, |claimed|);
      assert r.Err? ==> r.error == Db || r.error == UnknownEventType;
      batch := if r.Ok? then Some(r.value) else None;
    }

    method Reclaim() returns (ok: bool)
      requires Valid() && sys.workers[0] == Idle
      modifies this`sys, queue`rows, queue`clock, queue`pos
      ensures Valid() && Reaches(old(sys), sys) && sys.workers[0] == Idle && queue.pos == old(queue.pos) + 1
      ensures queue.rows == if ok then Reclaimed(old(queue.rows), queue.clock) else old(queue.rows)
      ensures !ok ==> SomethingFailed(queue.events, old(queue.pos), queue.pos)
    {
      ghost var s0 := sys;
      ReachesSelf(s0);
      ok := queue.ReclaimStuck();
      if ok {
        InformedLater(s0.rows, queue.rows, delivered, answers, asked, queue.events, old(queue.pos), queue.pos);
        ThenStep(s0, sys, MailSystem.Reclaim(0, queue.clock), Apply(sys, MailSystem.Reclaim(0, queue.clock)));
        Step(MailSystem.Reclaim(0, queue.clock));
      }
    }

    method Drain(batch: seq<Claimed>)
      requires Valid() && sys.workers[0] == Draining(batch)
      modifies this`delivered, this`sys, this`answers, this`asked, queue`rows, queue`clock, queue`pos
      ensures queue.pos >= old(queue.pos)
      ensures Valid() && Reaches(old(sys), sys) && sys.workers[0] == Idle && old(answers) <= answers
      ensures delivered == old(delivered) + IdsOf(batch)
    {
      ghost var s0, all := sys, delivered + IdsOf(batch);
      ReachesSelf(s0);
      var rest := batch;
      while rest != []
        invariant Valid() && Reaches(s0, sys) && sys.workers[0] == Draining(rest)
        invariant old(answers) <= answers && queue.pos >= old(queue.pos) && delivered + IdsOf(rest) == all
        decreases |rest|
      {
        assert rest == [rest[0]] + rest[1..];
        ghost var s1 := sys;
        SentOneMore(delivered, rest);
        SendOne(rest[0], rest[1..]);
        ReachesOn(s0, s1, sys);
        rest := rest[1..];
      }
      ghost var s2 := sys;
      EndBatch();
      ReachesOn(s0, s2, sys);
    }

    ghost method EndBatch()
      requires Valid() && sys.workers[0] == Draining([])
      modifies this`sys
      ensures Valid() && Reaches(old(sys), sys) && sys.workers[0] == Idle
    {
      ReachesSelf(sys);
      ThenStep(sys, sys, Rest(0), Apply(sys, Rest(0)));
      Step(Rest(0));
    }

    // What a turn worked on: the rows after reclaiming, which happens every fifth time, and
    // the batch - all the due mails of known type - that was then sent in order.
    ghost predicate Turn(before: map<nat, Mail>, rows: map<nat, Mail>, reclaimedAt: nat, now: nat,
                         batch: Option<seq<Claimed>>, from: nat)
      reads this, queue
    {
      var due := DueRows(rows, now, 0, queue.nextId, BATCH);
      && (cycles % 5 != 0 ==> rows == before)
      && (cycles % 5 == 0 ==>
            rows == Reclaimed(before, reclaimedAt) ||
            (rows == before && SomethingFailed(queue.events, from, queue.pos)))
      && (batch.Some? ==> batch.value == due)
      && (batch.None? ==> SomethingFailed(queue.events, from, queue.pos) || exists k :: UnknownAt(rows, due, k))
    }

    // One turn of the loop: reclaim every fifth time, claim a batch, drain it.
    method Cycle() returns (ghost rows: map<nat, Mail>, ghost reclaimedAt: nat, ghost now: nat,
                            ghost batch: Option<seq<Claimed>>)
      requires Valid() && sys.workers[0] == Idle
      modifies this, queue`rows, queue`clock, queue`pos
      ensures Valid() && Reaches(old(sys), sys) && sys.workers[0] == Idle && cycles == old(cycles) + 1
      ensures old(answers) <= answers
      ensures Turn(old(queue.rows), rows, reclaimedAt, now, batch, old(queue.pos))
      ensures delivered == old(delivered) + (if batch.Some? then IdsOf(batch.value) else [])
      // Unless a statement fails, something is sent exactly if something is due and no due
      // mail of unknown type is near the front.
      ensures !SomethingFailed(queue.events, old(queue.pos), queue.pos) ==>
                (delivered != old(delivered) <==> SomethingDue(rows, now) && Passable(rows, now))
    {
      ghost var s0 := sys;
      ReachesSelf(s0);
      cycles := cycles + 1;
      if cycles % 5 == 0 {
        var ok := Reclaim();
      }
      rows, reclaimedAt := queue.rows, queue.clock;
      ghost var s1, pos1 := sys, queue.pos;
      var at, claimed := Fetch();
      now, batch := at, claimed;
      FailedEarlier(queue.events, old(queue.pos), pos1, queue.pos);
      ReachesOn(s0, s1, sys);
      if claimed.Some? {
        ghost var s2, pos2 := sys, queue.pos;
        Drain(claimed.value);
        FailedLater(queue.events, old(queue.pos), pos2, queue.pos);
        ReachesOn(s0, s2, sys);
      }
    }

    // The loop, ended by shutdown after some number of turns.
    method Run(turns: nat)
      requires Valid() && sys.workers[0] == Idle
      modifies this, queue`rows, queue`clock, queue`pos
      ensures Valid() && Reaches(old(sys), sys) && sys.workers[0] == Idle
      ensures forall id :: id in old(queue.rows) && Terminal(old(queue.rows)[id]) ==>
                             id in queue.rows && queue.rows[id] == old(queue.rows)[id]
      ensures forall id :: id in queue.rows ==>
                             id in sys.log && Count(delivered, id) <= 4 + sys.log[id].reclaims &&
                             queue.rows[id].attempts <= (if Terminal(queue.rows[id]) then 4 else 3)
      // The answers are the mailer's, one for each mail handed to it, in order; a mail is sent
      // exactly if one of them accepted it, has failed exactly if one gave it up, and has as
      // many attempts as there are others recorded.
      ensures old(answers) <= answers && SameMails(delivered, answers)
      ensures FromMailer(queue.events, queue.pos, asked, answers)
      ensures forall id :: id in queue.rows ==>
                             (queue.rows[id].state.Sent? <==> AcceptedOnce(answers, id)) &&
                             (queue.rows[id].state.Failed? <==> GivenUp(answers, id)) &&
                             queue.rows[id].attempts == Failures(answers, id)
      // After a recorded retry a mail is not handed over again before its wait is over.
      ensures Spaced(answers)
    {
      ghost var s0 := sys;
      ReachesSelf(s0);
      for k := 0 to turns
        invariant Valid() && Reaches(s0, sys) && sys.workers[0] == Idle && old(answers) <= answers
      {
        ghost var s1 := sys;
        var _, _, _, _ := Cycle();
        ReachesOn(s0, s1, sys);
      }
      ReachesHealthy(s0, sys);
      forall id | id in queue.rows
        ensures id in sys.log && Count(delivered, id) <= 4 + sys.log[id].reclaims
        ensures queue.rows[id].attempts <= (if Terminal(queue.rows[id]) then 4 else 3)
      {
        SendsBounded(sys, id);
      }
      forall id | id in queue.rows
        ensures queue.rows[id].state.Sent? <==> AcceptedOnce(answers, id)
        ensures queue.rows[id].state.Failed? <==> GivenUp(answers, id)
        ensures queue.rows[id].attempts == Failures(answers, id)
      {
        assert Explained(answers, id, queue.rows[id]);
      }
    }
  }
}
