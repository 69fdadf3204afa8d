/** The rule-update subscriber (internal/infrastructure/messaging/nats/subscriber.go). */
module Subscriber {
  import opened RulePacks
  import opened Modular
  import opened Backoff

  const RECENT := 10
  const EVICTION := 30 * SECOND

  /** A remembered update: what `addRecent` stores. */
  datatype Recent = Recent(version: int, sha256: string, receivedAt: int)

  type Ring = seq<Option<Recent>>

  /** Index of the oldest update the ring can still remember. */
  function Window(applied: seq<Recent>, capacity: nat): nat {
    if |applied| > capacity then |applied| - capacity else 0
  }

  ghost predicate InWindow(applied: seq<Recent>, capacity: nat, k: int) {
    Window(applied, capacity) <= k < |applied|
  }

  /** Each of the last updates is in its slot unless it had expired by `clock`; slots hold nothing else. */
  ghost predicate Remembers(ring: Ring, applied: seq<Recent>, clock: int, eviction: int) {
    && |ring| > 0
    && (forall k :: InWindow(applied, |ring|, k) ==> KeptOrExpired(ring, applied, clock, eviction, k))
    && (forall s :: 0 <= s < |ring| && ring[s].Some? ==> FromWindow(applied, |ring|, s, ring[s].value))
  }

  ghost predicate KeptOrExpired(ring: Ring, applied: seq<Recent>, clock: int, eviction: int, k: int)
    requires |ring| > 0 && 0 <= k < |applied|
  {
    var slot := ring[Slot(k, |ring|)];
    slot == Some(applied[k]) || (slot.None? && clock - applied[k].receivedAt > eviction)
  }

  ghost predicate FromWindow(applied: seq<Recent>, capacity: nat, s: int, r: Recent)
    requires capacity > 0
  {
    exists k :: InWindow(applied, capacity, k) && Slot(k, capacity) == s && applied[k] == r
  }

  predicate Fresh(r: Recent, sha: string, now: int, eviction: int) {
    r.sha256 == sha && now - r.receivedAt <= eviction
  }

  /** One of the last `capacity` applied updates has this hash and is recent enough. */
  ghost predicate SeenRecently(applied: seq<Recent>, capacity: nat, sha: string, now: int, eviction: int) {
    exists k :: InWindow(applied, capacity, k) && Fresh(applied[k], sha, now, eviction)
  }

  function Evicted(ring: Ring, now: int, eviction: int): (r: Ring)
    ensures |r| == |ring|
  {
    seq(|ring|, i requires 0 <= i < |ring| =>
      if ring[i].Some? && now - ring[i].value.receivedAt > eviction then None else ring[i])
  }

  /** Lazy eviction forgets only what stays expired under a clock that never goes back. */
  lemma EvictKeeps(ring: Ring, applied: seq<Recent>, clock: int, now: int, eviction: int)
    requires Remembers(ring, applied, clock, eviction) && clock <= now
    ensures Remembers(Evicted(ring, now, eviction), applied, now, eviction)
  {
    forall k | InWindow(applied, |ring|, k)
      ensures KeptOrExpired(Evicted(ring, now, eviction), applied, now, eviction, k)
    {
      assert KeptOrExpired(ring, applied, clock, eviction, k);
    }
  }

  lemma DuplicateIff(ring: Ring, applied: seq<Recent>, now: int, eviction: int, sha: string)
    requires Remembers(ring, applied, now, eviction) && Evicted(ring, now, eviction) == ring
    ensures (exists s :: 0 <= s < |ring| && ring[s].Some? && ring[s].value.sha256 == sha) <==>
      SeenRecently(applied, |ring|, sha, now, eviction)
  {
    if s :| 0 <= s < |ring| && ring[s].Some? && ring[s].value.sha256 == sha {
      var k :| InWindow(applied, |ring|, k) && Slot(k, |ring|) == s && applied[k] == ring[s].value;
      assert Evicted(ring, now, eviction)[s] == ring[s];
      assert Fresh(applied[k], sha, now, eviction);
    }
    if k :| InWindow(applied, |ring|, k) && Fresh(applied[k], sha, now, eviction) {
      assert KeptOrExpired(ring, applied, now, eviction, k);
    }
  }

  lemma AddKeeps(ring: Ring, applied: seq<Recent>, clock: int, eviction: int, r: Recent)
    requires Remembers(ring, applied, clock, eviction)
    ensures Remembers(ring[Slot(|applied|, |ring|) := Some(r)], applied + [r], clock, eviction)
  {
    var n, next := |ring|, Slot(|applied|, |ring|);
    var ring', applied' := ring[next := Some(r)], applied + [r];
    forall k | InWindow(applied', n, k) ensures KeptOrExpired(ring', applied', clock, eviction, k) {
      if k < |applied| {
        SlotDistinct(k, |applied|, n);
        assert InWindow(applied, n, k) && KeptOrExpired(ring, applied, clock, eviction, k);
      }
    }
    forall s | 0 <= s < n && ring'[s].Some? ensures FromWindow(applied', n, s, ring'[s].value) {
      if s == next {
        assert InWindow(applied', n, |applied|) && applied'[|applied|] == r;
      } else {
        var k :| InWindow(applied, n, k) && Slot(k, n) == s && applied[k] == ring[s].value;
        if k < Window(applied', n) {
          SlotAhead(k, n, n);
        }
        assert InWindow(applied', n, k) && applied'[k] == ring'[s].value;
      }
    }
  }

  ghost predicate VersionsRise(applied: seq<Recent>, last: int) {
    && (forall i, j :: 0 <= i < j < |applied| ==> applied[i].version < applied[j].version)
    && (forall i :: 0 <= i < |applied| ==> 0 < applied[i].version <= last)
    && last == (if applied == [] then 0 else applied[|applied| - 1].version)
  }

  datatype Update = Update(version: int, sha256: string)

  datatype Verdict = Stale | Duplicate | HandlerFailed | Applied

  /** `tenantState`; `applied` is every update applied so far, `clock` the latest time seen. */
  class TenantState {
    var lastAppliedVersion: int
    const recentMessages: array<Option<Recent>>
    var bufferIdx: nat
    const evictionDuration: int
    ghost var applied: seq<Recent>
    ghost var clock: int

    ghost predicate Valid() reads this, recentMessages {
      && recentMessages.Length > 0
      && Remembers(recentMessages[..], applied, clock, evictionDuration)
      && bufferIdx == Slot(|applied|, recentMessages.Length)
      && VersionsRise(applied, lastAppliedVersion)
    }

    constructor (capacity: nat, eviction: int, ghost now: int)
      requires capacity > 0
      ensures Valid() && fresh(recentMessages) && recentMessages.Length == capacity
      ensures applied == [] && clock == now && evictionDuration == eviction
    {
      lastAppliedVersion, bufferIdx := 0, 0;
      recentMessages := new Option<Recent>[capacity](_ => None);
      evictionDuration := eviction;
      applied, clock := [], now;
    }

    method IsDuplicate(sha: string, now: int) returns (dup: bool)
      requires Valid() && clock <= now
      modifies this`clock, recentMessages
      ensures Valid() && clock == now
      ensures dup <==> SeenRecently(applied, recentMessages.Length, sha, now, evictionDuration)
    {
      EvictExpired(now);
      DuplicateIff(recentMessages[..], applied, now, evictionDuration, sha);
      for i := 0 to recentMessages.Length
        invariant forall s :: 0 <= s < i ==> recentMessages[s].None? || recentMessages[s].value.sha256 != sha
      {
        if recentMessages[i].Some? && recentMessages[i].value.sha256 == sha {
          assert recentMessages[..][i].Some?;
          return true;
        }
      }
      return false;
    }

    method EvictExpired(now: int)
      requires Valid() && clock <= now
      modifies this`clock, recentMessages
      ensures Valid() && clock == now
      ensures Evicted(recentMessages[..], now, evictionDuration) == recentMessages[..]
    {
      ghost var before := recentMessages[..];
      EvictKeeps(before, applied, clock, now, evictionDuration);
      clock := now;
      for i := 0 to recentMessages.Length
        modifies recentMessages
        invariant forall s :: 0 <= s < i ==> recentMessages[s] == Evicted(before, now, evictionDuration)[s]
        invariant forall s :: i <= s < recentMessages.Length ==> recentMessages[s] == before[s]
      {
        var msg := recentMessages[i];
        if msg.Some? && now - msg.value.receivedAt > evictionDuration {
          recentMessages[i] := None;
        }
      }
      assert recentMessages[..] == Evicted(before, now, evictionDuration);
    }

    /** The body of the message loop for one parsed update. */
    method Process(u: Update, now: int, handlerOk: bool) returns (v: Verdict)
      requires Valid() && clock <= now
      modifies this, recentMessages
      ensures Valid()
      ensures v.Stale? <==> u.version <= old(lastAppliedVersion)
      ensures v.Duplicate? <==> !v.Stale? && SeenRecently(old(applied), recentMessages.Length, u.sha256, now, evictionDuration)
      ensures v.Applied? ==> handlerOk && applied == old(applied) + [Recent(u.version, u.sha256, now)]
      ensures !v.Applied? ==> applied == old(applied) && lastAppliedVersion == old(lastAppliedVersion)
      ensures v.HandlerFailed? ==> !handlerOk
      ensures clock == if v.Stale? then old(clock) else now
    {
      if u.version <= lastAppliedVersion {
        return Stale;
      }
      var dup := IsDuplicate(u.sha256, now);
      if dup {
        return Duplicate;
      }
      if !handlerOk {
        return HandlerFailed;
      }
      lastAppliedVersion := u.version;
      AddRecent(Recent(u.version, u.sha256, now));
      return Applied;
    }

    method AddRecent(r: Recent)
      requires recentMessages.Length > 0 && bufferIdx == Slot(|applied|, recentMessages.Length)
      requires Remembers(recentMessages[..], applied, clock, evictionDuration)
      modifies this`bufferIdx, this`applied, recentMessages
      ensures applied == old(applied) + [r] && bufferIdx == Slot(|applied|, recentMessages.Length)
      ensures Remembers(recentMessages[..], applied, clock, evictionDuration)
    {
      AddKeeps(recentMessages[..], applied, clock, evictionDuration, r);
      recentMessages[bufferIdx] := Some(r);
      assert recentMessages[..] == old(recentMessages[..])[bufferIdx := Some(r)];
      bufferIdx := RingIndex(bufferIdx + 1, recentMessages.Length);
      applied := applied + [r];
    }
  }

  /** The state a tenant gets with its first message: ten slots, thirty seconds. */
  method NewTenant(ghost now: int) returns (state: TenantState)
    ensures state.Valid() && fresh(state) && fresh(state.recentMessages)
    ensures state.recentMessages.Length == RECENT && state.evictionDuration == EVICTION
    ensures state.applied == [] && state.clock == now
  {
    state := new TenantState(RECENT, EVICTION, now);
  }

  /** For such a tenant: a duplicate is one of the last ten applied updates, at most thirty seconds old. */
  lemma SeenMeans(applied: seq<Recent>, sha: string, now: int)
    ensures SeenRecently(applied, RECENT, sha, now, EVICTION) <==>
      exists k :: 0 <= k < |applied| && |applied| - 10 <= k && applied[k].sha256 == sha && now - applied[k].receivedAt <= 30 * SECOND
  {
    if k :| 0 <= k < |applied| && |applied| - 10 <= k && applied[k].sha256 == sha && now - applied[k].receivedAt <= 30 * SECOND {
      assert InWindow(applied, RECENT, k);
    }
  }

  /** Delete notices carry version -1 and are dropped in every reachable state. */
  lemma DeleteNoticesAreStale(applied: seq<Recent>, last: int, u: Update)
    requires VersionsRise(applied, last) && u.version == -1
    ensures u.version < 0 <= last
  {
    if applied != [] {
      assert 0 < applied[|applied| - 1].version;
    }
  }

  // ---------- circuit breaker ----------

  const MAX_FAILURES := 5

  /** What the read returned; after a message also the number of pending ones, if that could be asked. */
  datatype Poll = Empty | ReadError | Messages(pending: Option<nat>)

  /** One pass of the receive loop: the ping result matters only when the circuit is open. */
  datatype Pass = Pass(pingOk: bool, poll: Poll)

  function NextFailures(f: nat, p: Pass): nat {
    if f >= MAX_FAILURES && !p.pingOk then MAX_FAILURES
    else
      var g := if f >= MAX_FAILURES then MAX_FAILURES - 1 else f;
      if p.poll.ReadError? then g + 1 else 0
  }

  function FailuresAfter(passes: seq<Pass>): nat {
    if passes == [] then 0 else NextFailures(FailuresAfter(passes[..|passes| - 1]), passes[|passes| - 1])
  }

  lemma {:induction false} FailuresBounded(passes: seq<Pass>)
    ensures FailuresAfter(passes) <= MAX_FAILURES
  {
    if passes != [] {
      FailuresBounded(passes[..|passes| - 1]);
    }
  }

  /** Passes since the last read that succeeded; with five or more a failed ping skips the read. */
  function SinceSuccess(passes: seq<Pass>): nat {
    if passes == [] then 0
    else
      var before, p := SinceSuccess(passes[..|passes| - 1]), passes[|passes| - 1];
      if (before < 5 || p.pingOk) && !p.poll.ReadError? then 0 else before + 1
  }

  /** The breaker counts them, up to five. */
  lemma {:induction false} FailuresAreSinceSuccess(passes: seq<Pass>)
    ensures FailuresAfter(passes) == if SinceSuccess(passes) < 5 then SinceSuccess(passes) else 5
  {
    if passes != [] {
      FailuresAreSinceSuccess(passes[..|passes| - 1]);
    }
  }

  // ---------- waiting ----------

  /** The jittered backoff after f consecutive failures. */
  function BackoffFor(f: nat, draw: int -> int): int {
    if f == 0 then 0
    else
      var half := Clamped(SECOND, 30 * SECOND, f) / 2;
      half + draw(half)
  }

  predicate Overloaded(p: Poll) {
    p.Messages? && p.pending.Some? && p.pending.value > 1000
  }

  /** The backoff stretched by the backlog, up to ten seconds. */
  function Throttled(b: int, p: Poll): int {
    if !Overloaded(p) then b
    else
      var d := b + (p.pending.value / 100) * MILLISECOND;
      if d > 10 * SECOND then 10 * SECOND else d
  }

  /** The waits of one pass: before the ping when the circuit is open, before the read, and
      again after a read that returned messages. */
  function WaitsIn(f: nat, p: Pass, draw: int -> int): seq<int> {
    var b := BackoffFor(f, draw);
    if f >= MAX_FAILURES && !p.pingOk then [b]
    else
      (if f >= MAX_FAILURES then [b] else []) +
      (if b > 0 then [b] else []) +
      (if p.poll.Messages? && Throttled(b, p.poll) > 0 then [Throttled(b, p.poll)] else [])
  }

  /** The generator as each pass finds it. */
  type Draws = seq<int -> int>

  ghost predicate AreDraws(draws: Draws, passes: seq<Pass>) {
    |draws| == |passes| && forall k :: 0 <= k < |draws| ==> IsDraw(draws[k])
  }

  function WaitsAfter(passes: seq<Pass>, draws: Draws): seq<int>
    requires |draws| == |passes|
  {
    if passes == [] then []
    else
      var n := |passes| - 1;
      WaitsAfter(passes[..n], draws[..n]) + WaitsIn(FailuresAfter(passes[..n]), passes[n], draws[n])
  }

  lemma BackoffRange(f: nat, draw: int -> int)
    requires f <= MAX_FAILURES && IsDraw(draw)
    ensures f > 0 ==> SECOND <= BackoffFor(f, draw) < 30 * SECOND
  {
    if f > 0 {
      SubscriberBackoff(f);
    }
  }

  /** Every wait is shorter than 30s, and only a backlog can make one shorter than a second. */
  lemma {:induction false} WaitsInRange(passes: seq<Pass>, draws: Draws, i: nat)
    requires AreDraws(draws, passes) && i < |WaitsAfter(passes, draws)|
    ensures 10 * MILLISECOND <= WaitsAfter(passes, draws)[i] < 30 * SECOND
    ensures (forall k :: 0 <= k < |passes| ==> !Overloaded(passes[k].poll)) ==> SECOND <= WaitsAfter(passes, draws)[i]
  {
    var n := |passes| - 1;
    var init := WaitsAfter(passes[..n], draws[..n]);
    if i < |init| {
      WaitsInRange(passes[..n], draws[..n], i);
    } else {
      FailuresBounded(passes[..n]);
      PassRange(FailuresAfter(passes[..n]), passes[n], draws[n], i - |init|);
    }
  }

  lemma PassRange(f: nat, p: Pass, draw: int -> int, i: nat)
    requires f <= MAX_FAILURES && IsDraw(draw) && i < |WaitsIn(f, p, draw)|
    ensures 10 * MILLISECOND <= WaitsIn(f, p, draw)[i] < 30 * SECOND
    ensures !Overloaded(p.poll) ==> SECOND <= WaitsIn(f, p, draw)[i]
  {
    BackoffRange(f, draw);
    var b := BackoffFor(f, draw);
    assert WaitsIn(f, p, draw)[i] == b || WaitsIn(f, p, draw)[i] == Throttled(b, p.poll);
  }

  /** The receive loop waits exactly as described, and the generator never panics. */
  method ReceiveLoop(passes: seq<Pass>, draws: Draws) returns (waits: seq<int>, failures: nat)
    requires AreDraws(draws, passes)
    ensures failures == FailuresAfter(passes) <= MAX_FAILURES
    ensures waits == WaitsAfter(passes, draws)
  {
    waits := [];
    failures := 0;
    for k := 0 to |passes|
      invariant failures == FailuresAfter(passes[..k]) <= MAX_FAILURES
      invariant waits == WaitsAfter(passes[..k], draws[..k])
    {
      assert passes[..k + 1][..k] == passes[..k] && draws[..k + 1][..k] == draws[..k];
      var now;
      now, failures := OnePass(failures, passes[k], draws[k]);
      waits := waits + now;
    }
    assert passes[..|passes|] == passes && draws[..|draws|] == draws;
  }

  method OnePass(before: nat, p: Pass, draw: int -> int) returns (waits: seq<int>, failures: nat)
    requires IsDraw(draw) && before <= MAX_FAILURES
    ensures failures == NextFailures(before, p) && waits == WaitsIn(before, p, draw)
  {
    waits, failures := [], before;
    var backoffDur := 0;
    if failures > 0 {
      SubscriberBackoff(failures);
      var j := EqualJitter(SECOND, 30 * SECOND, failures, draw);
      backoffDur := j.duration;
    }
    if failures >= MAX_FAILURES {
      waits := waits + [backoffDur];
      if !p.pingOk {
        failures := MAX_FAILURES;
        return;
      }
      failures := MAX_FAILURES - 1;
    }
    if backoffDur > 0 {
      waits := waits + [backoffDur];
    }
    match p.poll
    case Empty => failures := 0;
    case ReadError => failures := failures + 1;
    case Messages(_) =>
      backoffDur := Throttle(backoffDur, p.poll);
      if backoffDur > 0 {
        waits := waits + [backoffDur];
      }
      failures := 0;
  }

  method Throttle(backoffDur: int, poll: Poll) returns (d: int)
    requires poll.Messages?
    ensures d == Throttled(backoffDur, poll)
    ensures (poll.pending.None? || poll.pending.value <= 1000) ==> d == backoffDur
    ensures poll.pending.Some? && poll.pending.value > 1000 ==>
      d <= 10_000_000_000 && (d == 10_000_000_000 || d == backoffDur + (poll.pending.value / 100) * 1_000_000)
  {
    d := backoffDur;
    if poll.pending.Some? && poll.pending.value > 1000 {
      d := d + (poll.pending.value / 100) * MILLISECOND;
      if d > 10 * SECOND {
        d := 10 * SECOND;
      }
    }
  }
}
