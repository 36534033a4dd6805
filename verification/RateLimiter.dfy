// The windowed rate limiter of public links: how many calls it can let through, and what its
// retry hint is worth.  Instants and the window are in nanoseconds.
module RateLimiters {
  import opened Wrappers

  const NANOS: nat := 1_000_000_000
  const PASSWORD_ATTEMPTS_PER_HOUR: nat := 10
  const UPLOAD_ATTEMPTS_PER_HOUR: nat := 60

  datatype Decision = Allowed | Throttled(retryAfterSecs: nat)

  datatype AttemptLog = AttemptLog(windowStart: nat, count: nat)

  type Bucket = map<string, AttemptLog>

  // `duration_since`, which is zero for an instant in the future.
  function Elapsed(l: AttemptLog, now: nat): nat {
    if now < l.windowStart then 0 else now - l.windowStart
  }

  // The log a call at `now` decides on: a new one, or the old one unless its window is over.
  function Current(log: Option<AttemptLog>, window: nat, now: nat): AttemptLog {
    match log
    case None => AttemptLog(now, 0)
    case Some(l) => if Elapsed(l, now) >= window then AttemptLog(now, 0) else l
  }

  function Remaining(l: AttemptLog, window: nat, now: nat): nat {
    if window < Elapsed(l, now) then 0 else window - Elapsed(l, now)
  }

  function Decide(l: AttemptLog, window: nat, cap: nat, now: nat): Decision {
    if l.count < cap then Allowed
    else
      var secs := Remaining(l, window, now) / NANOS;
      Throttled(if secs < 1 then 1 else secs)
  }

  function After(log: Option<AttemptLog>, window: nat, cap: nat, now: nat): AttemptLog {
    var l := Current(log, window, now);
    if l.count < cap then l.(count := l.count + 1) else l
  }

  function Lookup(bucket: Bucket, key: string): Option<AttemptLog> {
    if key in bucket then Some(bucket[key]) else None
  }

  class RateLimiter {
    var passwordAttempts: Bucket
    var uploadAttempts: Bucket
    const window: nat

    constructor (window: nat)
      ensures this.window == window && passwordAttempts == map[] && uploadAttempts == map[]
    {
      this.window := window;
      passwordAttempts, uploadAttempts := map[], map[];
    }

    method CheckPasswordAttempt(token: string, now: nat) returns (d: Decision)
      modifies this`passwordAttempts
      ensures var log := Lookup(old(passwordAttempts), token);
              && d == Decide(Current(log, window, now), window, PASSWORD_ATTEMPTS_PER_HOUR, now)
              && passwordAttempts == old(passwordAttempts)[token := After(log, window, PASSWORD_ATTEMPTS_PER_HOUR, now)]
    {
      d, passwordAttempts := Check(passwordAttempts, token, PASSWORD_ATTEMPTS_PER_HOUR, now);
    }

    method CheckUpload(ip: string, now: nat) returns (d: Decision)
      modifies this`uploadAttempts
      ensures var log := Lookup(old(uploadAttempts), ip);
              && d == Decide(Current(log, window, now), window, UPLOAD_ATTEMPTS_PER_HOUR, now)
              && uploadAttempts == old(uploadAttempts)[ip := After(log, window, UPLOAD_ATTEMPTS_PER_HOUR, now)]
    {
      d, uploadAttempts := Check(uploadAttempts, ip, UPLOAD_ATTEMPTS_PER_HOUR, now);
    }

    method Check(bucket: Bucket, key: string, cap: nat, now: nat) returns (d: Decision, bucket': Bucket)
      ensures d == Decide(Current(Lookup(bucket, key), window, now), window, cap, now)
      ensures bucket' == bucket[key := After(Lookup(bucket, key), window, cap, now)]
    {
      var entry := if key in bucket then bucket[key] else AttemptLog(now, 0);
      if Elapsed(entry, now) >= window {
        entry := AttemptLog(now, 0);
      }
      if entry.count >= cap {
        var left := Remaining(entry, window, now) / NANOS;
        d := Throttled(if left < 1 then 1 else left);
      } else {
        entry := entry.(count := entry.count + 1);
        d := Allowed;
      }
      bucket' := bucket[key := entry];
    }
  }

  // ---------- one key, any trace ----------

  predicate Monotone(times: seq<nat>) {
    forall i, j :: 0 <= i < j < |times| ==> times[i] <= times[j]
  }

  // How many calls with an instant in [a, b] are let through.
  function AllowedIn(log: Option<AttemptLog>, window: nat, cap: nat, times: seq<nat>, a: nat, b: nat): nat
    decreases |times|
  {
    if times == [] then 0
    else
      (if a <= times[0] <= b && Decide(Current(log, window, times[0]), window, cap, times[0]).Allowed? then 1 else 0)
      + AllowedIn(Some(After(log, window, cap, times[0])), window, cap, times[1..], a, b)
  }

  // Windows that can still begin by `b` once the one begun at `s` is over.
  function FurtherWindows(s: nat, window: nat, b: nat): nat
    requires window > 0
  {
    if b < s + window then 0 else (b - s) / window
  }

  lemma LaterWindow(s: nat, t: nat, window: nat, b: nat)
    requires window > 0 && s + window <= t <= b
    ensures FurtherWindows(t, window, b) + 1 <= FurtherWindows(s, window, b)
  {
    DivMonotone(b - t + window, b - s, window);
    DivPlus(b - t, window);
  }

  lemma DivMonotone(x: nat, y: nat, d: nat)
    requires d > 0 && x <= y
    ensures x / d <= y / d
  {
    SmallMultiple(d, x / d - y / d, x % d - y % d);
    QuotientOf(x, d);
    QuotientOf(y, d);
    assert d * (x / d - y / d) == d * (x / d) - d * (y / d);
  }

  lemma DivPlus(x: nat, d: nat)
    requires d > 0
    ensures (x + d) / d == x / d + 1
  {
    var q, q' := x / d, (x + d) / d;
    QuotientOf(x, d);
    QuotientOf(x + d, d);
    SmallMultiple(d, q' - q - 1, (x + d) % d - x % d);
    SmallMultiple(d, q + 1 - q', x % d - (x + d) % d);
    assert d * (q' - q - 1) == d * q' - d * q - d && d * (q + 1 - q') == d * q + d - d * q';
  }

  lemma QuotientOf(x: nat, d: nat)
    requires d > 0
    ensures x == d * (x / d) + x % d && 0 <= x % d < d
  {
  }

  // A positive multiple of d is not a difference of two remainders.
  lemma SmallMultiple(d: nat, k: int, r: int)
    requires r < d && 0 < r + d
    ensures k > 0 ==> d * k + r > 0
  {
    if k > 0 {
      assert d * k == d * (k - 1) + d && d * (k - 1) >= 0;
    }
  }

  lemma {:induction false} NoneAfter(log: Option<AttemptLog>, window: nat, cap: nat, times: seq<nat>, a: nat, b: nat)
    requires Monotone(times) && times != [] && times[0] > b
    ensures AllowedIn(log, window, cap, times, a, b) == 0
    decreases |times|
  {
    if |times| > 1 {
      NoneAfter(Some(After(log, window, cap, times[0])), window, cap, times[1..], a, b);
    }
  }

  // From a log with `count` used up: what is left of this window, and all further ones.
  lemma {:induction false} FromLog(l: AttemptLog, window: nat, cap: nat, times: seq<nat>, a: nat, b: nat)
    requires window > 0 && Monotone(times) && l.count <= cap && (times != [] ==> times[0] >= l.windowStart)
    ensures AllowedIn(Some(l), window, cap, times, a, b) <= cap - l.count +
            cap * FurtherWindows(l.windowStart, window, b)
    decreases |times|
  {
    if times != [] {
      var t, rest := times[0], times[1..];
      var l' := After(Some(l), window, cap, t);
      if t > b {
        NoneAfter(Some(l), window, cap, times, a, b);
      } else {
        FromLog(l', window, cap, rest, a, b);
        if t >= l.windowStart + window {
          LaterWindow(l.windowStart, t, window, b);
          assert cap * FurtherWindows(t, window, b) + cap <= cap * FurtherWindows(l.windowStart, window, b) by {
            Distribute(cap, FurtherWindows(t, window, b), FurtherWindows(l.windowStart, window, b));
          }
        }
      }
    }
  }

  // Inside one window the calls let through are exactly the first ones, until the cap is
  // reached.
  lemma {:induction false} WithinWindow(l: AttemptLog, window: nat, cap: nat, times: seq<nat>, a: nat, b: nat)
    requires window > 0 && l.count <= cap
    requires forall i :: 0 <= i < |times| ==> a <= times[i] <= b && times[i] < l.windowStart + window
    ensures AllowedIn(Some(l), window, cap, times, a, b) ==
            if |times| <= cap - l.count then |times| else cap - l.count
    decreases |times|
  {
    if times != [] {
      WithinWindow(After(Some(l), window, cap, times[0]), window, cap, times[1..], a, b);
    }
  }

  lemma Distribute(c: nat, x: nat, y: nat)
    requires x + 1 <= y
    ensures c * x + c <= c * y
  {
    MulMonotone(c, x + 1, y);
    Scale(c, x);
  }

  // In any closed interval of length L a key gets at most cap * (L / window + 2) - 1 calls
  // through, however the calls are spread and whatever happened before.
  lemma {:induction false} AtMost(log: Option<AttemptLog>, window: nat, cap: nat, times: seq<nat>, a: nat, b: nat)
    requires window > 0 && cap > 0 && Monotone(times) && a <= b
    requires log.Some? ==> log.value.count <= cap && (log.value.windowStart < a ==> log.value.count > 0)
    requires log.Some? && times != [] ==> times[0] >= log.value.windowStart
    ensures AllowedIn(log, window, cap, times, a, b) <= cap * ((b - a) / window + 2) - 1
    decreases |times|
  {
    var k := (b - a) / window;
    Scale(cap, k);
    if times != [] {
      var t := times[0];
      if t > b {
        NoneAfter(log, window, cap, times, a, b);
      } else if t < a {
        AtMost(Some(After(log, window, cap, t)), window, cap, times[1..], a, b);
      } else {
        var l := Current(log, window, t);
        CurrentAgain(log, window, cap, times, a, b);
        FromLog(l, window, cap, times, a, b);
        FewWindows(l, window, cap, a, b);
      }
    }
  }

  lemma Scale(c: nat, k: nat)
    ensures c * (k + 1) == c * k + c && c * (k + 2) == c * k + c + c && c * k >= 0
  {
  }

  lemma FewWindows(l: AttemptLog, window: nat, cap: nat, a: nat, b: nat)
    requires window > 0 && cap > 0 && a <= b && l.windowStart + window > a && l.count <= cap
    requires l.windowStart < a ==> l.count > 0
    ensures cap - l.count + cap * FurtherWindows(l.windowStart, window, b) <= cap * ((b - a) / window + 2) - 1
  {
    var k, x := (b - a) / window, FurtherWindows(l.windowStart, window, b);
    Scale(cap, k);
    WindowsFrom(l.windowStart, window, a, b);
    Distribute2(cap, x, k);
  }

  lemma Distribute2(c: nat, x: nat, k: nat)
    ensures x <= k ==> c * x <= c * k
    ensures x <= k + 1 ==> c * x <= c * (k + 1)
  {
    if x <= k {
      MulMonotone(c, x, k);
    }
    if x <= k + 1 {
      MulMonotone(c, x, k + 1);
    }
  }

  lemma {:induction false} MulMonotone(c: nat, x: nat, y: nat)
    requires x <= y
    ensures c * x <= c * y
    decreases y - x
  {
    if x < y {
      Scale(c, x);
      MulMonotone(c, x + 1, y);
    }
  }

  lemma CurrentAgain(log: Option<AttemptLog>, window: nat, cap: nat, times: seq<nat>, a: nat, b: nat)
    requires window > 0 && times != []
    ensures AllowedIn(log, window, cap, times, a, b) ==
              AllowedIn(Some(Current(log, window, times[0])), window, cap, times, a, b)
  {
  }

  lemma WindowsFrom(s: nat, window: nat, a: nat, b: nat)
    requires window > 0 && a <= b
    ensures s >= a ==> FurtherWindows(s, window, b) <= (b - a) / window
    ensures s + window > a ==> FurtherWindows(s, window, b) <= (b - a) / window + 1
  {
    if b >= s + window {
      if s >= a {
        DivMonotone(b - s, b - a, window);
      }
      if s + window > a {
        DivMonotone(b - s, b - a + window, window);
        DivPlus(b - a, window);
      }
    }
  }

  // The bound is reached, for every number of windows: one call at 0, the rest of the cap
  // just before the window closes, and a full cap as each later window opens.
  function Repeat(n: nat, t: nat): seq<nat> {
    seq(n, i => t)
  }

  function Bursts(window: nat, cap: nat, from: nat, n: nat): seq<nat>
    decreases n
  {
    if n == 0 then [] else Repeat(cap, from) + Bursts(window, cap, from + window, n - 1)
  }

  function Attack(window: nat, cap: nat, n: nat): seq<nat>
    requires window > 0 && cap > 0
  {
    [0] + Repeat(cap - 1, window - 1) + Bursts(window, cap, window, n)
  }

  lemma {:induction false} Repeated(l: AttemptLog, window: nat, cap: nat, n: nat, t: nat, rest: seq<nat>, a: nat,
                                    b: nat)
    requires l.windowStart <= t < l.windowStart + window && l.count + n <= cap && a <= t <= b
    ensures AllowedIn(Some(l), window, cap, Repeat(n, t) + rest, a, b) ==
            n + AllowedIn(Some(l.(count := l.count + n)), window, cap, rest, a, b)
    decreases n
  {
    var all := Repeat(n, t) + rest;
    if n == 0 {
      assert all == rest;
    } else {
      assert all[0] == t && all[1..] == Repeat(n - 1, t) + rest;
      Repeated(l.(count := l.count + 1), window, cap, n - 1, t, rest, a, b);
    }
  }

  lemma {:induction false} AllBursts(l: AttemptLog, window: nat, cap: nat, from: nat, n: nat, a: nat, b: nat)
    requires window > 0 && cap > 0 && l.windowStart + window == from && a <= from
    requires from + window * n <= b + window
    ensures AllowedIn(Some(l), window, cap, Bursts(window, cap, from, n), a, b) == cap * n
    decreases n
  {
    if n > 0 {
      var rest := Bursts(window, cap, from + window, n - 1);
      assert from <= b by { Scale(window, n - 1); Distribute2(window, 0, n - 1); }
      assert (Repeat(cap, from) + rest)[0] == from;
      CurrentAgain(Some(l), window, cap, Repeat(cap, from) + rest, a, b);
      Repeated(AttemptLog(from, 0), window, cap, cap, from, rest, a, b);
      Scale(window, n - 1);
      AllBursts(AttemptLog(from, cap), window, cap, from + window, n - 1, a, b);
      Scale(cap, n - 1);
    }
  }

  lemma BoundReached(window: nat, cap: nat, k: nat)
    requires window > 1 && cap > 0
    ensures
      var a, b := window - 1, window - 1 + (window * k + 1);
      && (b - a) / window == k && Monotone(Attack(window, cap, k + 1))
      && AllowedIn(None, window, cap, Attack(window, cap, k + 1), a, b) == cap * ((b - a) / window + 2) - 1
  {
    var a, b := window - 1, window - 1 + (window * k + 1);
    AttackAllowed(window, cap, k, a, b);
    ExactQuotient(window, k);
    AttackMonotone(window, cap, k + 1);
    Distribute2(cap, k, 2);
  }

  lemma AttackMonotone(window: nat, cap: nat, n: nat)
    requires window > 0 && cap > 0
    ensures Monotone(Attack(window, cap, n))
  {
    BurstsMonotone(window, cap, window, n);
  }

  // The last calls of the first window, then all those of each further one.
  lemma AttackAllowed(window: nat, cap: nat, k: nat, a: nat, b: nat)
    requires window > 1 && cap > 0 && a == window - 1 && b == window - 1 + (window * k + 1)
    ensures AllowedIn(None, window, cap, Attack(window, cap, k + 1), a, b) == cap - 1 + cap * (k + 1)
  {
    var l, rest := AttemptLog(0, 1), Bursts(window, cap, window, k + 1);
    var tail := Repeat(cap - 1, window - 1) + rest;
    assert Attack(window, cap, k + 1)[0] == 0 && Attack(window, cap, k + 1)[1..] == tail;
    Repeated(l, window, cap, cap - 1, window - 1, rest, a, b);
    Scale(window, k);
    AllBursts(l.(count := cap), window, cap, window, k + 1, a, b);
  }

  lemma {:induction false} BurstsMonotone(window: nat, cap: nat, from: nat, n: nat)
    ensures Monotone(Bursts(window, cap, from, n))
    ensures forall i :: 0 <= i < |Bursts(window, cap, from, n)| ==> from <= Bursts(window, cap, from, n)[i]
    decreases n
  {
    if n > 0 {
      BurstsMonotone(window, cap, from + window, n - 1);
    }
  }

  lemma ExactQuotient(d: nat, k: nat)
    requires d > 1
    ensures (d * k + 1) / d == k
  {
    QuotientOf(d * k + 1, d);
    var q := (d * k + 1) / d;
    SmallMultiple(d, q - k, (d * k + 1) % d - 1);
    SmallMultiple(d, k - q, 1 - (d * k + 1) % d);
    assert d * (q - k) == d * q - d * k && d * (k - q) == d * k - d * q;
  }

  // ---------- keys ----------

  datatype Call = Call(key: string, now: nat)

  function Trace(bucket: Bucket, window: nat, cap: nat, calls: seq<Call>): seq<Decision>
    decreases |calls|
  {
    if calls == [] then []
    else
      var log := Lookup(bucket, calls[0].key);
      [Decide(Current(log, window, calls[0].now), window, cap, calls[0].now)]
      + Trace(bucket[calls[0].key := After(log, window, cap, calls[0].now)], window, cap, calls[1..])
  }

  function Alone(log: Option<AttemptLog>, window: nat, cap: nat, calls: seq<Call>, key: string): seq<Decision>
    decreases |calls|
  {
    if calls == [] then []
    else if calls[0].key != key then Alone(log, window, cap, calls[1..], key)
    else [Decide(Current(log, window, calls[0].now), window, cap, calls[0].now)]
         + Alone(Some(After(log, window, cap, calls[0].now)), window, cap, calls[1..], key)
  }

  function DecisionsFor(calls: seq<Call>, ds: seq<Decision>, key: string): seq<Decision>
    requires |calls| == |ds|
  {
    if calls == [] then []
    else if calls[0].key == key then [ds[0]] + DecisionsFor(calls[1..], ds[1..], key)
    else DecisionsFor(calls[1..], ds[1..], key)
  }

  // What a key is told does not depend on the calls made with other keys.
  lemma {:induction false} KeysIndependent(bucket: Bucket, window: nat, cap: nat, calls: seq<Call>, key: string)
    ensures |Trace(bucket, window, cap, calls)| == |calls|
    ensures DecisionsFor(calls, Trace(bucket, window, cap, calls), key) ==
              Alone(Lookup(bucket, key), window, cap, calls, key)
    decreases |calls|
  {
    if calls != [] {
      var log := Lookup(bucket, calls[0].key);
      var bucket' := bucket[calls[0].key := After(log, window, cap, calls[0].now)];
      KeysIndependent(bucket', window, cap, calls[1..], key);
      assert Trace(bucket, window, cap, calls)[1..] == Trace(bucket', window, cap, calls[1..]);
    }
  }

  // ---------- the retry hint ----------

  // A refused call is told the rest of the window in whole seconds, and at least one.
  lemma HintIs(l: AttemptLog, window: nat, cap: nat, now: nat)
    requires l.windowStart <= now < l.windowStart + window
    ensures
      var d, left := Decide(l, window, cap, now), l.windowStart + window - now;
      && (d.Throttled? <==> l.count >= cap)
      && (d.Throttled? && left < NANOS ==> d.retryAfterSecs == 1)
      && (d.Throttled? && left >= NANOS ==> d.retryAfterSecs * NANOS <= left < (d.retryAfterSecs + 1) * NANOS)
  {
    var left := l.windowStart + window - now;
    QuotientOf(left, NANOS);
  }

  // The hint is cut down to whole seconds, so a caller who waits exactly that long is let
  // through if and only if the rest of the window is a whole number of seconds, or less
  // than one.
  lemma RetryAfterIff(l: AttemptLog, window: nat, cap: nat, now: nat)
    requires l.windowStart <= now < l.windowStart + window && l.count == cap && cap > 0
    ensures
      var d, left := Decide(l, window, cap, now), l.windowStart + window - now;
      && d.Throttled?
      && var later := now + d.retryAfterSecs * NANOS;
         Decide(Current(Some(l), window, later), window, cap, later).Allowed? <==> left % NANOS == 0 || left < NANOS
  {
    var left := l.windowStart + window - now;
    QuotientOf(left, NANOS);
  }
}
