// What became of a mail is what the mailer answered: the state, the attempts and the next
// due time of every mail follow from the answers recorded for it, in any run of any number
// of workers.
module MailOutcomes {
  import opened Wrappers
  import opened MailSystem

  // One call of the mailer: the mail, the attempt count its claim carried, the answer, when
  // the outcome was to be recorded, and whether that statement went through.
  datatype Attempt = Attempt(id: nat, carried: nat, answer: Delivery, now: nat, recorded: bool)

  // The calls of the mailer a step makes.
  function AttemptsOf(s: System, a: Action): seq<Attempt>
    requires Enabled(s, a)
  {
    if a.Deliver?
    then [Attempt(s.workers[a.w].hand[0].id, s.workers[a.w].hand[0].attempts, a.result, a.now, a.marked)]
    else []
  }

  ghost function AllAttempts(s: System, run: seq<Action>): seq<Attempt>
    requires AllEnabled(s, run)
    decreases |run|
  {
    if run == [] then [] else AttemptsOf(s, run[0]) + AllAttempts(Apply(s, run[0]), run[1..])
  }

  // The last answer that was recorded for the mail.
  function LastRecorded(tries: seq<Attempt>, id: nat): Option<Attempt> {
    if tries == [] then None
    else
      var last := tries[|tries| - 1];
      if last.id == id && last.recorded then Some(last) else LastRecorded(tries[..|tries| - 1], id)
  }

  // How many of the recorded answers were not an acceptance.
  function Failures(tries: seq<Attempt>, id: nat): nat {
    if tries == [] then 0
    else
      var last := tries[|tries| - 1];
      Failures(tries[..|tries| - 1], id) + (if last.id == id && last.recorded && !last.answer.Accepted? then 1 else 0)
  }

  // A transient answer is retried unless the claim carried three failed attempts already.
  predicate Retried(t: Attempt) {
    t.answer.Transient? && t.carried < 3
  }

  // The wait before the next attempt.
  function Wait(t: Attempt): nat {
    if t.carried == 0 then 60 else if t.carried == 1 then 300 else 1800
  }

  // A mail `m0` with these answers has become `m`: the last recorded one decides.
  predicate Follows(m0: Mail, tries: seq<Attempt>, id: nat, m: Mail) {
    && m.attempts == m0.attempts + Failures(tries, id)
    && match LastRecorded(tries, id)
       case None => m.due == m0.due && (m.state.Sent? <==> m0.state.Sent?) && (m.state.Failed? <==> m0.state.Failed?)
       case Some(t) =>
         && (m.state.Sent? <==> t.answer.Accepted?)
         && (m.state.Failed? <==> t.answer.Permanent? || (t.answer.Transient? && t.carried >= 3))
         && (Retried(t) ==> m.due == t.now + Wait(t))
  }

  lemma FollowsStep(s: System, a: Action, m0: Mail, tries: seq<Attempt>, id: nat)
    requires Ids(s) && Enabled(s, a) && id in s.rows && Follows(m0, tries, id, s.rows[id])
    ensures id in Apply(s, a).rows && Follows(m0, tries + AttemptsOf(s, a), id, Apply(s, a).rows[id])
  {
    var more := tries + AttemptsOf(s, a);
    if a.Deliver? {
      assert more[..|more| - 1] == tries;
      assert Failures(more, id) == Failures(tries, id) +
             (if more[|tries|].id == id && a.marked && !a.result.Accepted? then 1 else 0);
    } else {
      assert more == tries;
      if a.ClaimBatch? {
        ClaimAllIs(s.rows, DueRows(s.rows - a.locked, a.now, 0, s.nextId, BATCH), a.now, id);
      }
    }
  }

  lemma {:induction false} FollowsRun(s: System, run: seq<Action>, m0: Mail, tries: seq<Attempt>, id: nat)
    requires Ids(s) && AllEnabled(s, run) && id in s.rows && Follows(m0, tries, id, s.rows[id])
    ensures id in Run(s, run).rows && Follows(m0, tries + AllAttempts(s, run), id, Run(s, run).rows[id])
    decreases |run|
  {
    if run == [] {
      assert tries + [] == tries;
    } else {
      var s1 := Apply(s, run[0]);
      FollowsStep(s, run[0], m0, tries, id);
      IdsStep(s, run[0]);
      FollowsRun(s1, run[1..], m0, tries + AttemptsOf(s, run[0]), id);
      assert tries + AllAttempts(s, run) == (tries + AttemptsOf(s, run[0])) + AllAttempts(s1, run[1..]);
    }
  }

  lemma IdsStep(s: System, a: Action)
    requires Ids(s) && Enabled(s, a)
    ensures Ids(Apply(s, a))
  {
    forall id
      ensures id in Apply(s, a).rows ==> id in s.rows || (a.Enqueue? && id == s.nextId)
      ensures id in s.rows ==> id in Apply(s, a).rows
    {
      if id in Apply(s, a).rows {
        KnownOrNew(s, a, id);
      }
      if id in s.rows {
        AttemptsGrow(s, a, id);
      }
    }
    assert Apply(s, a).log.Keys == Apply(s, a).rows.Keys;
  }

  // Every mail of a run: its state, attempts and due time are what the recorded answers make
  // of the mail it was at the start, with no condition on workers, claims or reclaims.
  lemma OutcomeOfRun(s: System, run: seq<Action>, id: nat)
    requires Ids(s) && AllEnabled(s, run) && id in s.rows
    ensures id in Run(s, run).rows && Follows(s.rows[id], AllAttempts(s, run), id, Run(s, run).rows[id])
  {
    FollowsRun(s, run, s.rows[id], [], id);
    assert [] + AllAttempts(s, run) == AllAttempts(s, run);
  }

  ghost predicate AcceptedOnce(tries: seq<Attempt>, id: nat) {
    exists t :: t in tries && t.id == id && t.recorded && t.answer.Accepted?
  }

  ghost predicate GivenUp(tries: seq<Attempt>, id: nat) {
    exists t :: t in tries && t.id == id && t.recorded && !t.answer.Accepted? && !Retried(t)
  }

  // With one claimant each the answer that settles a mail is the last: then it is sent
  // exactly if an acceptance was recorded, and has failed exactly if a permanent answer was,
  // or a transient one that came with three failed attempts.
  lemma {:induction false} SentIff(s: System, run: seq<Action>, id: nat)
    requires Exclusive(s) && Ids(s) && AllEnabled(s, run) && AllReclaimsSafe(s, run) && id in s.rows &&
             !Terminal(s.rows[id])
    ensures id in Run(s, run).rows
    ensures Run(s, run).rows[id].state.Sent? <==> AcceptedOnce(AllAttempts(s, run), id)
    ensures Run(s, run).rows[id].state.Failed? <==> GivenUp(AllAttempts(s, run), id)
    decreases |run|
  {
    if run != [] {
      var s1, now, later := Apply(s, run[0]), AttemptsOf(s, run[0]), AllAttempts(Apply(s, run[0]), run[1..]);
      BatchStep(s, run[0]);
      AttemptsGrow(s, run[0], id);
      OneAttempt(s, run[0], id);
      Joined(now, later, id);
      if Terminal(s1.rows[id]) {
        TerminalForever(s1, run[1..], id);
        NoneLater(s1, run[1..], id);
      } else {
        SentIff(s1, run[1..], id);
      }
    }
  }

  lemma Joined(a: seq<Attempt>, b: seq<Attempt>, id: nat)
    ensures AcceptedOnce(a + b, id) <==> AcceptedOnce(a, id) || AcceptedOnce(b, id)
    ensures GivenUp(a + b, id) <==> GivenUp(a, id) || GivenUp(b, id)
  {
    assert forall t :: t in a + b <==> t in a || t in b;
  }

  lemma OneAttempt(s: System, a: Action, id: nat)
    requires Exclusive(s) && Ids(s) && Enabled(s, a) && id in s.rows && !Terminal(s.rows[id]) &&
             id in Apply(s, a).rows
    ensures Apply(s, a).rows[id].state.Sent? <==> AcceptedOnce(AttemptsOf(s, a), id)
    ensures Apply(s, a).rows[id].state.Failed? <==> GivenUp(AttemptsOf(s, a), id)
  {
    FollowsStep(s, a, s.rows[id], [], id);
    assert [] + AttemptsOf(s, a) == AttemptsOf(s, a);
    if a.Deliver? {
      assert AttemptsOf(s, a)[..0] == [];
      var t := AttemptsOf(s, a)[0];
      assert t.id == id && t.recorded && t.answer.Accepted? ==> AcceptedOnce(AttemptsOf(s, a), id);
    }
  }

  // A settled mail is not handed to the mailer again.
  lemma {:induction false} NoneLater(s: System, run: seq<Action>, id: nat)
    requires Exclusive(s) && Ids(s) && AllEnabled(s, run) && AllReclaimsSafe(s, run) && id in s.rows &&
             Terminal(s.rows[id])
    ensures forall k :: 0 <= k < |AllAttempts(s, run)| ==> AllAttempts(s, run)[k].id != id
    decreases |run|
  {
    if run != [] {
      TerminalStays(s, run[0], id);
      BatchStep(s, run[0]);
      NoneLater(Apply(s, run[0]), run[1..], id);
    }
  }

  // ---------- what one worker knows of its mails ----------

  // A mail enqueued since the first of these answers: what they made of it.
  ghost predicate Explained(tries: seq<Attempt>, id: nat, m: Mail) {
    && Follows(Mail(Pending, 0, m.due, m.known), tries, id, m)
    && (m.state.Sent? <==> AcceptedOnce(tries, id))
    && (m.state.Failed? <==> GivenUp(tries, id))
  }

  ghost predicate AllExplained(tries: seq<Attempt>, rows: map<nat, Mail>) {
    && (forall id {:trigger Explained(tries, id, rows[id])} :: id in rows ==> Explained(tries, id, rows[id]))
    && (forall t :: t in tries ==> t.id in rows)
  }

  // Claiming and reclaiming do this to a mail.
  predicate Quiet(m: Mail, m': Mail) {
    m'.attempts == m.attempts && m'.due == m.due && (m' == m || (!Terminal(m) && !Terminal(m')))
  }

  lemma QuietExplained(tries: seq<Attempt>, rows: map<nat, Mail>, rows': map<nat, Mail>)
    requires AllExplained(tries, rows) && rows'.Keys == rows.Keys
    requires forall id :: id in rows ==> Quiet(rows[id], rows'[id])
    ensures AllExplained(tries, rows')
  {
    forall id | id in rows'
      ensures Explained(tries, id, rows'[id])
    {
      assert Explained(tries, id, rows[id]);
    }
  }

  lemma {:induction false} NoneRecorded(tries: seq<Attempt>, id: nat)
    requires forall t :: t in tries ==> t.id != id
    ensures LastRecorded(tries, id) == None && Failures(tries, id) == 0
    ensures !AcceptedOnce(tries, id) && !GivenUp(tries, id)
  {
    if tries != [] {
      NoneRecorded(tries[..|tries| - 1], id);
    }
  }

  lemma NewExplained(tries: seq<Attempt>, rows: map<nat, Mail>, id: nat, m: Mail)
    requires AllExplained(tries, rows) && id !in rows && m.state.Pending? && m.attempts == 0
    ensures AllExplained(tries, rows[id := m])
  {
    NoneRecorded(tries, id);
    forall j | j in rows
      ensures Explained(tries, j, rows[id := m][j])
    {
      assert Explained(tries, j, rows[j]);
    }
  }

  lemma OneMore(tries: seq<Attempt>, t: Attempt, id: nat)
    ensures
      var all := tries + [t];
      && LastRecorded(all, id) == (if t.id == id && t.recorded then Some(t) else LastRecorded(tries, id))
      && Failures(all, id) == Failures(tries, id) + (if t.id == id && t.recorded && !t.answer.Accepted? then 1 else 0)
      && (AcceptedOnce(all, id) <==> AcceptedOnce(tries, id) || AcceptedOnce([t], id))
      && (GivenUp(all, id) <==> GivenUp(tries, id) || GivenUp([t], id))
      && (AcceptedOnce([t], id) <==> t.id == id && t.recorded && t.answer.Accepted?)
      && (GivenUp([t], id) <==> t.id == id && t.recorded && !t.answer.Accepted? && !Retried(t))
  {
    assert (tries + [t])[..|tries|] == tries;
    Joined(tries, [t], id);
    assert t in [t];
  }

  // The answer for a claimed mail, recorded or not.
  lemma AnsweredExplained(tries: seq<Attempt>, rows: map<nat, Mail>, t: Attempt)
    requires AllExplained(tries, rows) && t.id in rows && rows[t.id].state.Sending?
    ensures AllExplained(tries + [t], if t.recorded then rows[t.id := Marked(rows[t.id], t.carried, t.answer, t.now)]
                                      else rows)
  {
    var rows' := if t.recorded then rows[t.id := Marked(rows[t.id], t.carried, t.answer, t.now)] else rows;
    forall id | id in rows'
      ensures Explained(tries + [t], id, rows'[id])
    {
      assert Explained(tries, id, rows[id]);
      OneMore(tries, t, id);
    }
  }

  // After a recorded retry the mail is left alone for the wait it was given.
  predicate Spaced(tries: seq<Attempt>) {
    forall i, j :: 0 <= i < j < |tries| && tries[i].id == tries[j].id && tries[i].recorded && Retried(tries[i]) ==>
      tries[j].now >= tries[i].now + Wait(tries[i])
  }

  lemma {:induction false} LastAt(tries: seq<Attempt>, id: nat) returns (k: nat)
    ensures LastRecorded(tries, id).Some? ==>
              k < |tries| && LastRecorded(tries, id) == Some(tries[k]) && tries[k].id == id && tries[k].recorded
    ensures forall i :: 0 <= i < |tries| && tries[i].id == id && tries[i].recorded ==>
              LastRecorded(tries, id).Some? && i <= k
  {
    k := 0;
    if tries != [] {
      var last := tries[|tries| - 1];
      if last.id == id && last.recorded {
        k := |tries| - 1;
      } else {
        k := LastAt(tries[..|tries| - 1], id);
      }
    }
  }

  lemma SpacedOn(tries: seq<Attempt>, m: Mail, t: Attempt)
    requires Spaced(tries) && Explained(tries, t.id, m) && !Terminal(m) && m.due <= t.now
    ensures Spaced(tries + [t])
  {
    var all := tries + [t];
    var k := LastAt(tries, t.id);
    forall i | 0 <= i < |tries| && all[i].id == t.id && all[i].recorded && Retried(all[i])
      ensures t.now >= all[i].now + Wait(all[i])
    {
      var last := tries[k];
      assert Retried(last);
      assert i < k ==> last.now >= tries[i].now + Wait(tries[i]);
    }
  }
}
