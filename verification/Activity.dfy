// The activity log: events close together in time are counted on one row.
module Activities {
  import opened Wrappers
  import opened Sums

  // What the probe compares.
  datatype Key = Key(recipient: string, actor: string, eventType: string, objectId: Option<int>)

  datatype Row = Row(key: Key, subject: string, params: string, occurredAt: int, lastSeenAt: int, count: nat)

  datatype Event = Event(actor: string, eventType: string, objectId: Option<int>, subjectActor: string,
                         subjectRecipient: string, params: string, recipients: seq<string>, occurredAt: int)

  datatype Log = Log(rows: map<nat, Row>, nextId: nat)

  // ---------- one delivery ----------

  predicate Probed(r: Row, key: Key, cutoff: int) {
    r.key == key && r.lastSeenAt >= cutoff
  }

  // The latest row the probe finds among ids below `top`.
  function Probe(rows: map<nat, Row>, key: Key, cutoff: int, top: nat): (r: Option<nat>)
    ensures r.Some? ==> r.value < top && r.value in rows && Probed(rows[r.value], key, cutoff)
    ensures r.None? ==> forall id :: id < top && id in rows ==> !Probed(rows[id], key, cutoff)
    ensures r.Some? ==> forall id :: id < top && id in rows && Probed(rows[id], key, cutoff) ==>
              rows[id].lastSeenAt <= rows[r.value].lastSeenAt
  {
    if top == 0 then None
    else
      var below := Probe(rows, key, cutoff, top - 1);
      if top - 1 in rows && Probed(rows[top - 1], key, cutoff) &&
         (below.None? || rows[below.value].lastSeenAt < rows[top - 1].lastSeenAt)
      then Some(top - 1) else below
  }

  function Coalesced(r: Row, at: int, params: string): Row {
    r.(count := r.count + 1, lastSeenAt := at, params := params)
  }

  // The row a delivery is counted on, if it opens none.
  function Met(l: Log, key: Key, at: int, window: int): Option<nat> {
    if window > 0 then Probe(l.rows, key, at - window, l.nextId) else None
  }

  function Deliver(l: Log, key: Key, subject: string, params: string, at: int, window: int): Log {
    match Met(l, key, at, window)
    case Some(id) => l.(rows := l.rows[id := Coalesced(l.rows[id], at, params)])
    case None => Log(l.rows[l.nextId := Row(key, subject, params, at, at, 1)], l.nextId + 1)
  }

  // ---------- one event ----------

  function Unique(recipients: seq<string>, seen: set<string>): seq<string> {
    if recipients == [] then []
    else if recipients[0] in seen then Unique(recipients[1..], seen)
    else [recipients[0]] + Unique(recipients[1..], seen + {recipients[0]})
  }

  predicate Wants(optedOut: set<(string, string)>, e: Event, u: string) {
    u == e.actor || (u, e.eventType) !in optedOut
  }

  function KeyOf(e: Event, u: string): Key {
    Key(u, e.actor, e.eventType, e.objectId)
  }

  function DeliverTo(l: Log, e: Event, u: string, optedOut: set<(string, string)>, window: int): Log {
    if Wants(optedOut, e, u) then
      Deliver(l, KeyOf(e, u), if u == e.actor then e.subjectActor else e.subjectRecipient, e.params, e.occurredAt,
              window)
    else l
  }

  function DeliverAll(l: Log, e: Event, us: seq<string>, optedOut: set<(string, string)>, window: int): Log
    decreases |us|
  {
    if us == [] then l else DeliverAll(DeliverTo(l, e, us[0], optedOut, window), e, us[1..], optedOut, window)
  }

  lemma {:induction false} DeliverOneMore(l: Log, e: Event, us: seq<string>, k: nat, optedOut: set<(string, string)>,
                                          window: int)
    requires k < |us|
    ensures DeliverAll(l, e, us[..k + 1], optedOut, window) ==
              DeliverTo(DeliverAll(l, e, us[..k], optedOut, window), e, us[k], optedOut, window)
    decreases k
  {
    assert us[..k + 1][1..] == us[1..][..k];
    if k > 0 {
      assert us[..k][1..] == us[1..][..k - 1];
      DeliverOneMore(DeliverTo(l, e, us[0], optedOut, window), e, us[1..], k - 1, optedOut, window);
    } else {
      assert us[..0] == [] && us[..1][1..] == [];
    }
  }

  class Activity {
    const window: int
    var rows: map<nat, Row>
    var nextId: nat
    var optedOut: set<(string, string)>

    constructor (window: int, optedOut: set<(string, string)>)
      ensures this.window == window && rows == map[] && nextId == 0 && this.optedOut == optedOut
    {
      this.window := window;
      this.optedOut := optedOut;
      rows := map[];
      nextId := 0;
    }

    function State(): Log
      reads this
    {
      Log(rows, nextId)
    }

    // The list without its repetitions; `seen` is the set of names met so far.
    method UniqueRecipients(recipients: seq<string>) returns (us: seq<string>)
      ensures us == Unique(recipients, {})
    {
      us := [];
      var seen := {};
      for i := 0 to |recipients|
        invariant us + Unique(recipients[i..], seen) == Unique(recipients, {})
      {
        assert recipients[i..][0] == recipients[i] && recipients[i..][1..] == recipients[i + 1..];
        if recipients[i] !in seen {
          seen := seen + {recipients[i]};
          us := us + [recipients[i]];
        }
      }
    }

    // Recipient by recipient; when the database gives up after `upto` of them, those before
    // have their row and the others do not.
    method Emit(e: Event, upto: nat) returns (ok: bool)
      modifies this`rows, this`nextId
      ensures var us := Unique(e.recipients, {});
              && ok == (upto >= |us|)
              && State() == DeliverAll(old(State()), e, if ok then us else us[..upto], optedOut, window)
    {
      var us := UniqueRecipients(e.recipients);
      var cutoff := e.occurredAt - window;
      ghost var l := State();
      for k := 0 to |us|
        invariant k <= upto && State() == DeliverAll(l, e, us[..k], optedOut, window)
      {
        if k == upto {
          return false;
        }
        DeliverOneMore(l, e, us, k, optedOut, window);
        var u := us[k];
        var isActor := u == e.actor;
        if !isActor && (u, e.eventType) in optedOut {
          continue;
        }
        var subject := if isActor then e.subjectActor else e.subjectRecipient;
        if window > 0 {
          var id := Probe(rows, KeyOf(e, u), cutoff, nextId);
          if id.Some? {
            rows := rows[id.value := Coalesced(rows[id.value], e.occurredAt, e.params)];
            continue;
          }
        }
        rows := rows[nextId := Row(KeyOf(e, u), subject, e.params, e.occurredAt, e.occurredAt, 1)];
        nextId := nextId + 1;
      }
      assert us[..|us|] == us;
      return true;
    }
  }

  // ---------- separation ----------

  // Rows of one key lie more than the window apart, in order of their ids; nothing lies in
  // the future.
  ghost predicate Separated(l: Log, window: int, now: int) {
    && (forall id {:trigger InOrder(l, id, now)} :: id in l.rows ==> InOrder(l, id, now))
    && (forall i, j {:trigger Apart(l, i, j, window)} :: i in l.rows && j in l.rows && i < j ==> Apart(l, i, j, window))
  }

  ghost predicate InOrder(l: Log, id: nat, now: int)
    requires id in l.rows
  {
    id < l.nextId && l.rows[id].occurredAt <= l.rows[id].lastSeenAt <= now
  }

  ghost predicate Apart(l: Log, i: nat, j: nat, window: int)
    requires i in l.rows && j in l.rows
  {
    l.rows[i].key == l.rows[j].key ==> l.rows[j].occurredAt > l.rows[i].lastSeenAt + window
  }

  lemma DeliverSeparated(l: Log, key: Key, subject: string, params: string, at: int, window: int, now: int)
    requires window > 0 && Separated(l, window, now) && now <= at
    ensures Separated(Deliver(l, key, subject, params, at, window), window, at)
  {
    var l' := Deliver(l, key, subject, params, at, window);
    forall id | id in l'.rows
      ensures InOrder(l', id, at)
    {
      assert id in l.rows ==> InOrder(l, id, now);
    }
    forall i, j | i in l'.rows && j in l'.rows && i < j
      ensures Apart(l', i, j, window)
    {
      assert i in l.rows ==> InOrder(l, i, now);
      assert j in l.rows ==> InOrder(l, j, now);
      assert i in l.rows && j in l.rows ==> Apart(l, i, j, window);
    }
  }

  // ---------- counting ----------

  ghost function Counts(l: Log, key: Key): map<nat, int> {
    map id | id in l.rows && l.rows[id].key == key :: l.rows[id].count
  }

  ghost function Total(l: Log, key: Key): int {
    Sum<nat>(Counts(l, key))
  }

  ghost predicate Ids(l: Log) {
    forall id :: id in l.rows ==> id < l.nextId
  }

  lemma DeliverCounts(l: Log, key: Key, subject: string, params: string, at: int, window: int, k: Key)
    requires Ids(l)
    ensures Ids(Deliver(l, key, subject, params, at, window))
    ensures Total(Deliver(l, key, subject, params, at, window), k) == Total(l, k) + (if k == key then 1 else 0)
  {
    var l' := Deliver(l, key, subject, params, at, window);
    var found := Met(l, key, at, window);
    var id := if found.Some? then found.value else l.nextId;
    if k == key {
      assert Counts(l', k) == Counts(l, k)[id := l'.rows[id].count];
      assert id in Counts(l, k) <==> found.Some?;
      assert l'.rows[id].count == (if found.Some? then Counts(l, k)[id] + 1 else 1);
      SumUpdate<nat>(Counts(l, k), id, l'.rows[id].count);
    } else {
      assert Counts(l', k) == Counts(l, k);
    }
  }

  // ---------- runs ----------

  // An event, and how many of its recipients were reached before the database gave up.
  datatype Emission = Emission(e: Event, upto: nat)

  function Reached(m: Emission): seq<string> {
    var us := Unique(m.e.recipients, {});
    if m.upto >= |us| then us else us[..m.upto]
  }

  function RunAll(l: Log, ms: seq<Emission>, optedOut: set<(string, string)>, window: int): Log
    decreases |ms|
  {
    if ms == [] then l else RunAll(DeliverAll(l, ms[0].e, Reached(ms[0]), optedOut, window), ms[1..], optedOut, window)
  }

  // The event reached the key's recipient, is about the key, and the recipient is its actor or
  // has not opted out of its type.
  predicate IsFor(m: Emission, key: Key, optedOut: set<(string, string)>) {
    && key.recipient in Reached(m)
    && key.actor == m.e.actor && key.eventType == m.e.eventType && key.objectId == m.e.objectId
    && (key.recipient == m.e.actor || (key.recipient, m.e.eventType) !in optedOut)
  }

  // How many of the events were delivered to the key; a recipient named twice counts once.
  function Delivered(ms: seq<Emission>, key: Key, optedOut: set<(string, string)>): nat
    decreases |ms|
  {
    if ms == [] then 0
    else
      (if IsFor(ms[0], key, optedOut) then 1 else 0) + Delivered(ms[1..], key, optedOut)
  }

  predicate InTime(ms: seq<Emission>, now: int)
    decreases |ms|
  {
    ms == [] || (now <= ms[0].e.occurredAt && InTime(ms[1..], ms[0].e.occurredAt))
  }

  function LastTime(ms: seq<Emission>, now: int): int {
    if ms == [] then now else ms[|ms| - 1].e.occurredAt
  }

  predicate NoRepeats(us: seq<string>) {
    forall i, j :: 0 <= i < j < |us| ==> us[i] != us[j]
  }

  lemma {:induction false} UniqueIs(recipients: seq<string>, seen: set<string>)
    ensures NoRepeats(Unique(recipients, seen))
    ensures forall u :: u in Unique(recipients, seen) <==> u in recipients && u !in seen
    decreases |recipients|
  {
    if recipients != [] {
      UniqueIs(recipients[1..], seen);
      UniqueIs(recipients[1..], seen + {recipients[0]});
      assert forall u :: u in recipients <==> u == recipients[0] || u in recipients[1..];
    }
  }

  // Cutting the list short keeps the order of those before the cut.
  lemma {:induction false} UniqueInOrder(recipients: seq<string>, seen: set<string>, k: nat)
    requires k <= |recipients|
    ensures Unique(recipients[..k], seen) <= Unique(recipients, seen)
    decreases |recipients|
  {
    if k > 0 {
      var more := if recipients[0] in seen then seen else seen + {recipients[0]};
      assert recipients[..k][1..] == recipients[1..][..k - 1];
      UniqueInOrder(recipients[1..], more, k - 1);
    }
  }

  // A delivery is counted on a row exactly if one of its key was last seen at most the window
  // before, and then on the one seen last.
  lemma MetIff(l: Log, key: Key, at: int, window: int)
    requires Ids(l)
    ensures Met(l, key, at, window).Some? <==>
            window > 0 && exists id :: id in l.rows && l.rows[id].key == key && at - l.rows[id].lastSeenAt <= window
    ensures forall id :: Met(l, key, at, window) == Some(id) ==>
              && id in l.rows && l.rows[id].key == key && at - l.rows[id].lastSeenAt <= window
              && forall j :: j in l.rows && l.rows[j].key == key ==> l.rows[j].lastSeenAt <= l.rows[id].lastSeenAt
  {
    if id :| id in l.rows && l.rows[id].key == key && at - l.rows[id].lastSeenAt <= window {
      assert id < l.nextId && Probed(l.rows[id], key, at - window);
    }
    var met := Met(l, key, at, window);
    if met.Some? {
      forall j | j in l.rows && l.rows[j].key == key
        ensures l.rows[j].lastSeenAt <= l.rows[met.value].lastSeenAt
      {
        assert j < l.nextId && (l.rows[j].lastSeenAt >= at - window ==> Probed(l.rows[j], key, at - window));
      }
    }
  }

  lemma {:induction false} AllSeparated(l: Log, e: Event, us: seq<string>, optedOut: set<(string, string)>, window: int,
                                        now: int)
    requires window > 0 && Separated(l, window, now) && now <= e.occurredAt
    ensures Separated(DeliverAll(l, e, us, optedOut, window), window, e.occurredAt)
    decreases |us|
  {
    StillSeparated(l, window, now, e.occurredAt);
    if us != [] {
      var u := us[0];
      if Wants(optedOut, e, u) {
        DeliverSeparated(l, KeyOf(e, u), if u == e.actor then e.subjectActor else e.subjectRecipient, e.params,
                         e.occurredAt, window, now);
      }
      AllSeparated(DeliverTo(l, e, u, optedOut, window), e, us[1..], optedOut, window, e.occurredAt);
    }
  }

  lemma StillSeparated(l: Log, window: int, now: int, later: int)
    requires Separated(l, window, now) && now <= later
    ensures Separated(l, window, later)
  {
    forall id | id in l.rows
      ensures InOrder(l, id, later)
    {
      assert InOrder(l, id, now);
    }
  }

  lemma {:induction false} AllCounts(l: Log, e: Event, us: seq<string>, optedOut: set<(string, string)>, window: int,
                                     k: Key)
    requires Ids(l) && NoRepeats(us)
    ensures
      var l' := DeliverAll(l, e, us, optedOut, window);
      && Ids(l')
      && Total(l', k) == Total(l, k) +
         (if k.recipient in us && KeyOf(e, k.recipient) == k && Wants(optedOut, e, k.recipient) then 1 else 0)
    decreases |us|
  {
    if us != [] {
      var u := us[0];
      var subject := if u == e.actor then e.subjectActor else e.subjectRecipient;
      DeliverCounts(l, KeyOf(e, u), subject, e.params, e.occurredAt, window, k);
      AllCounts(DeliverTo(l, e, u, optedOut, window), e, us[1..], optedOut, window, k);
      assert forall i :: 0 < i < |us| ==> us[i] == us[1..][i - 1];
      assert k.recipient in us <==> k.recipient == u || k.recipient in us[1..];
      assert u !in us[1..];
    }
  }

  lemma ReachedNoRepeats(m: Emission)
    ensures NoRepeats(Reached(m))
  {
    UniqueIs(m.e.recipients, {});
  }

  // Events in order of time: rows of one key never come closer than the window.
  lemma {:induction false} RunSeparated(l: Log, ms: seq<Emission>, optedOut: set<(string, string)>, window: int,
                                        now: int)
    requires window > 0 && Separated(l, window, now) && InTime(ms, now)
    ensures Separated(RunAll(l, ms, optedOut, window), window, LastTime(ms, now))
    decreases |ms|
  {
    if ms != [] {
      AllSeparated(l, ms[0].e, Reached(ms[0]), optedOut, window, now);
      RunSeparated(DeliverAll(l, ms[0].e, Reached(ms[0]), optedOut, window), ms[1..], optedOut, window,
                   ms[0].e.occurredAt);
      assert LastTime(ms[1..], ms[0].e.occurredAt) == LastTime(ms, now);
    }
  }

  // Whatever the times and the window: the counts of a key add up to its deliveries.
  lemma {:induction false} RunCounts(l: Log, ms: seq<Emission>, optedOut: set<(string, string)>, window: int, k: Key)
    requires Ids(l)
    ensures Total(RunAll(l, ms, optedOut, window), k) == Total(l, k) + Delivered(ms, k, optedOut)
    decreases |ms|
  {
    if ms != [] {
      ReachedNoRepeats(ms[0]);
      AllCounts(l, ms[0].e, Reached(ms[0]), optedOut, window, k);
      RunCounts(DeliverAll(l, ms[0].e, Reached(ms[0]), optedOut, window), ms[1..], optedOut, window, k);
    }
  }

  // ---------- what the rows say ----------

  // The row was opened by this event: its time, and the subject meant for its recipient.
  predicate OpenedBy(r: Row, m: Emission, optedOut: set<(string, string)>) {
    && IsFor(m, r.key, optedOut) && r.occurredAt == m.e.occurredAt
    && r.subject == if r.key.recipient == r.key.actor then m.e.subjectActor else m.e.subjectRecipient
  }

  // The row was last written by this event: its time and parameters.
  predicate LastBy(r: Row, m: Emission, optedOut: set<(string, string)>) {
    IsFor(m, r.key, optedOut) && r.lastSeenAt == m.e.occurredAt && r.params == m.e.params
  }

  ghost predicate Told(l: Log, ms: seq<Emission>, optedOut: set<(string, string)>, l': Log, id: nat)
    requires id in l'.rows
  {
    var r := l'.rows[id];
    && ((exists m :: m in ms && OpenedBy(r, m, optedOut)) ||
        (id in l.rows && r.key == l.rows[id].key && r.occurredAt == l.rows[id].occurredAt &&
         r.subject == l.rows[id].subject))
    && ((exists m :: m in ms && LastBy(r, m, optedOut)) || (id in l.rows && r == l.rows[id]))
  }

  ghost predicate AllTold(l: Log, ms: seq<Emission>, optedOut: set<(string, string)>, l': Log) {
    forall id {:trigger Told(l, ms, optedOut, l', id)} :: id in l'.rows ==> Told(l, ms, optedOut, l', id)
  }

  lemma DeliveryTold(l0: Log, ms: seq<Emission>, m: Emission, u: string, optedOut: set<(string, string)>, window: int,
                     l: Log)
    requires AllTold(l0, ms, optedOut, l) && m in ms && u in Reached(m)
    ensures AllTold(l0, ms, optedOut, DeliverTo(l, m.e, u, optedOut, window))
  {
    var l' := DeliverTo(l, m.e, u, optedOut, window);
    forall id | id in l'.rows
      ensures Told(l0, ms, optedOut, l', id)
    {
      if id in l.rows && l'.rows[id] == l.rows[id] {
        assert Told(l0, ms, optedOut, l, id);
      } else {
        assert LastBy(l'.rows[id], m, optedOut);
        if id in l.rows && id != l.nextId {
          assert Told(l0, ms, optedOut, l, id);
          if n :| n in ms && OpenedBy(l.rows[id], n, optedOut) {
            assert OpenedBy(l'.rows[id], n, optedOut);
          }
        } else {
          NewRowTold(l, m, u, optedOut, window, id);
        }
      }
    }
  }

  lemma NewRowTold(l: Log, m: Emission, u: string, optedOut: set<(string, string)>, window: int, id: nat)
    requires u in Reached(m) && id in DeliverTo(l, m.e, u, optedOut, window).rows
    requires id !in l.rows || (id == l.nextId && DeliverTo(l, m.e, u, optedOut, window).rows[id] != l.rows[id])
    requires id in l.rows ==> Met(l, KeyOf(m.e, u), m.e.occurredAt, window).None?
    ensures OpenedBy(DeliverTo(l, m.e, u, optedOut, window).rows[id], m, optedOut)
  {
  }

  lemma {:induction false} EventTold(l0: Log, ms: seq<Emission>, m: Emission, us: seq<string>,
                                     optedOut: set<(string, string)>, window: int, l: Log)
    requires AllTold(l0, ms, optedOut, l) && m in ms && forall u :: u in us ==> u in Reached(m)
    ensures AllTold(l0, ms, optedOut, DeliverAll(l, m.e, us, optedOut, window))
    decreases |us|
  {
    if us != [] {
      DeliveryTold(l0, ms, m, us[0], optedOut, window, l);
      EventTold(l0, ms, m, us[1..], optedOut, window, DeliverTo(l, m.e, us[0], optedOut, window));
    }
  }

  lemma {:induction false} RunTold(l0: Log, all: seq<Emission>, ms: seq<Emission>, optedOut: set<(string, string)>,
                                   window: int, l: Log)
    requires AllTold(l0, all, optedOut, l) && forall m :: m in ms ==> m in all
    ensures AllTold(l0, all, optedOut, RunAll(l, ms, optedOut, window))
    decreases |ms|
  {
    if ms != [] {
      EventTold(l0, all, ms[0], Reached(ms[0]), optedOut, window, l);
      RunTold(l0, all, ms[1..], optedOut, window, DeliverAll(l, ms[0].e, Reached(ms[0]), optedOut, window));
    }
  }

  // Every row of a run tells of events that are for its recipient: when it was opened, with
  // the subject meant for that recipient, and when it was last written, with what parameters.
  lemma RunTells(l: Log, ms: seq<Emission>, optedOut: set<(string, string)>, window: int)
    ensures AllTold(l, ms, optedOut, RunAll(l, ms, optedOut, window))
  {
    assert AllTold(l, ms, optedOut, l);
    RunTold(l, ms, ms, optedOut, window, l);
  }

  // ---------- events out of order ----------

  // The latest time counted on each row, in any order of the events.
  function NewLatest(l: Log, latest: map<nat, int>, key: Key, at: int, window: int): map<nat, int>
    requires latest.Keys == l.rows.Keys
  {
    match Met(l, key, at, window)
    case Some(id) => latest[id := if latest[id] < at then at else latest[id]]
    case None => latest[l.nextId := at]
  }

  ghost predicate Truthful(l: Log, latest: map<nat, int>, id: nat)
    requires id in l.rows && id in latest
  {
    id < l.nextId && l.rows[id].occurredAt <= l.rows[id].lastSeenAt == latest[id]
  }

  // Each row has the latest time counted on it, and a row of the same key opened later
  // begins more than the window after that.
  ghost predicate Tidy(l: Log, latest: map<nat, int>, window: int) {
    && latest.Keys == l.rows.Keys
    && (forall id {:trigger Truthful(l, latest, id)} :: id in l.rows ==> Truthful(l, latest, id))
    && (forall i, j {:trigger Apart(l, i, j, window)} :: i in l.rows && j in l.rows && i < j ==> Apart(l, i, j, window))
  }

  // A delivery keeps that exactly if it opens a row, or is not earlier than the latest time
  // of the row it meets.
  lemma DeliverTidyIff(l: Log, latest: map<nat, int>, key: Key, subject: string, params: string, at: int, window: int)
    requires window > 0 && Tidy(l, latest, window)
    ensures
      var id := Met(l, key, at, window);
      Tidy(Deliver(l, key, subject, params, at, window), NewLatest(l, latest, key, at, window), window) <==>
      id.None? || l.rows[id.value].lastSeenAt <= at
  {
    var l', latest' := Deliver(l, key, subject, params, at, window), NewLatest(l, latest, key, at, window);
    var met := Met(l, key, at, window);
    if met.Some? && at < l.rows[met.value].lastSeenAt {
      assert Truthful(l, latest, met.value) && !Truthful(l', latest', met.value);
    } else {
      forall id | id in l'.rows
        ensures Truthful(l', latest', id)
      {
        assert id in l.rows ==> Truthful(l, latest, id);
      }
      forall i, j | i in l'.rows && j in l'.rows && i < j
        ensures Apart(l', i, j, window)
      {
        assert i in l.rows ==> Truthful(l, latest, i);
        assert j in l.rows ==> Truthful(l, latest, j);
        assert i in l.rows && j in l.rows ==> Apart(l, i, j, window);
      }
    }
  }

  // An earlier event moves the last-seen time of its row back to `at`; one at `t`, more than
  // the window after that, then opens a row inside the window of an event already counted.
  lemma LateEventSplits(l: Log, latest: map<nat, int>, key: Key, id: nat, subject: string, params: string, at: int,
                        t: int, window: int)
    requires window > 0 && Tidy(l, latest, window) && Met(l, key, at, window) == Some(id)
    requires l.rows[id].occurredAt <= t - window && at < t - window <= l.rows[id].lastSeenAt
    ensures
      var l1, latest1 := Deliver(l, key, subject, params, at, window), NewLatest(l, latest, key, at, window);
      var l2 := Deliver(l1, key, subject, params, t, window);
      && l.nextId !in l.rows && l.nextId in l2.rows && l2.rows[l.nextId].key == key && l2.rows[l.nextId].occurredAt == t
      && t <= latest1[id] + window
  {
    var l1 := Deliver(l, key, subject, params, at, window);
    assert Truthful(l, latest, id);
    assert l.nextId in l.rows ==> Truthful(l, latest, l.nextId);
    forall j | j in l1.rows && l1.rows[j].key == key
      ensures !Probed(l1.rows[j], key, t - window)
    {
      MetIsLast(l, latest, key, at, window, id, j);
      assert j < id ==> Apart(l, j, id, window);
    }
  }

  lemma MetIsLast(l: Log, latest: map<nat, int>, key: Key, at: int, window: int, id: nat, j: nat)
    requires window > 0 && Tidy(l, latest, window) && Met(l, key, at, window) == Some(id) && j in l.rows &&
             l.rows[j].key == key
    ensures j <= id
  {
    if id < j {
      LaterSeenLater(l, latest, id, j, window);
    }
  }

  lemma LaterSeenLater(l: Log, latest: map<nat, int>, i: nat, j: nat, window: int)
    requires window > 0 && Tidy(l, latest, window) && i in l.rows && j in l.rows && i < j &&
             l.rows[i].key == l.rows[j].key
    ensures l.rows[i].lastSeenAt < l.rows[j].lastSeenAt && j < l.nextId
  {
    assert Apart(l, i, j, window) && Truthful(l, latest, j);
  }
}
