/** The shared in-flight byte budget of concurrent ext_proc streams
    (internal/interfaces/grpc/enforcer/process_stream.go). Each atomic access to
    `inflightBytes` is one step; streams interleave arbitrarily. */
module Inflight {

  datatype Side = Request | Response

  /** Where a stream goroutine is. */
  datatype Point =
    | LoopTop                            // releasing the previous chunk
    | Receiving
    | Testing(side: Side, added: nat)    // bytes counted, about to read the counter
    | Sleeping(side: Side, added: nat)   // counter was above the limit
    | Scanning
    | Returning                          // deferred release
    | Ended

  datatype Stream = Stream(at: Point, lastReq: nat, lastResp: nat)

  datatype State = State(inflight: int, streams: seq<Stream>)

  datatype Action =
    | Open
    | ReleaseReq(i: nat) | ReleaseResp(i: nat)
    | ToReceive(i: nat)
    | ReceiveBody(i: nat, side: Side, size: nat)
    | ReceiveOther(i: nat)
    | Poll(i: nat) | Wake(i: nat) | Cancel(i: nat)
    | NextMessage(i: nat)
    | Leave(i: nat)
    | Finish(i: nat)

  const Init := State(0, [])

  function Admit(s: Stream, side: Side, n: nat): Stream {
    if side.Request? then s.(at := Scanning, lastReq := n) else s.(at := Scanning, lastResp := n)
  }

  predicate CanMove(t: Stream, a: Action) {
    match a
    case Open => false
    case ReleaseReq(_) => (t.at.LoopTop? || t.at.Returning?) && t.lastReq > 0
    case ReleaseResp(_) => (t.at.LoopTop? || t.at.Returning?) && t.lastResp > 0
    case ToReceive(_) => t.at.LoopTop? && t.lastReq == 0 && t.lastResp == 0
    case ReceiveBody(_, _, _) => t.at.Receiving?
    case ReceiveOther(_) => t.at.Receiving?
    case Poll(_) => t.at.Testing?
    case Wake(_) => t.at.Sleeping?
    case Cancel(_) => t.at.Sleeping?
    case NextMessage(_) => t.at.Scanning?
    case Leave(_) => t.at.Receiving? || t.at.Scanning?
    case Finish(_) => t.at.Returning? && t.lastReq == 0 && t.lastResp == 0
  }

  /** A stream's own new state and what it atomically adds to the counter. */
  datatype Effect = Effect(stream: Stream, delta: int)

  function Move(limit: int, inflight: int, t: Stream, a: Action): Effect
    requires CanMove(t, a)
  {
    match a
    case ReleaseReq(_) => Effect(t.(lastReq := 0), 0 - t.lastReq)
    case ReleaseResp(_) => Effect(t.(lastResp := 0), 0 - t.lastResp)
    case ToReceive(_) => Effect(t.(at := Receiving), 0)
    case ReceiveBody(_, side, n) =>
      if n == 0 || limit <= 0 then Effect(t.(at := Scanning), 0)
      else if n < limit then Effect(t.(at := Testing(side, n)), n)
      else Effect(Admit(t, side, n), n)
    case ReceiveOther(_) => Effect(t.(at := LoopTop), 0)
    case Poll(_) =>
      if inflight <= limit then Effect(Admit(t, t.at.side, t.at.added), 0)
      else Effect(t.(at := Sleeping(t.at.side, t.at.added)), 0)
    case Wake(_) => Effect(t.(at := Testing(t.at.side, t.at.added)), 0)
    case Cancel(_) => Effect(t.(at := Returning), 0 - t.at.added)
    case NextMessage(_) => Effect(t.(at := LoopTop), 0)
    case Leave(_) => Effect(t.(at := Returning), 0)
    case Finish(_) => Effect(t.(at := Ended), 0)
  }

  predicate Enabled(s: State, a: Action) {
    a.Open? || (a.i < |s.streams| && CanMove(s.streams[a.i], a))
  }

  /** One step of the whole server under the configured limit. */
  function Step(limit: int, s: State, a: Action): State
    requires Enabled(s, a)
  {
    if a.Open? then s.(streams := s.streams + [Stream(LoopTop, 0, 0)])
    else
      var e := Move(limit, s.inflight, s.streams[a.i], a);
      State(s.inflight + e.delta, s.streams[a.i := e.stream])
  }

  ghost predicate CanRun(limit: int, s: State, acts: seq<Action>)
    decreases |acts|
  {
    acts == [] || (Enabled(s, acts[0]) && CanRun(limit, Step(limit, s, acts[0]), acts[1..]))
  }

  ghost function Run(limit: int, s: State, acts: seq<Action>): State
    requires CanRun(limit, s, acts)
    decreases |acts|
  {
    if acts == [] then s else Run(limit, Step(limit, s, acts[0]), acts[1..])
  }

  // ---------- what every run keeps ----------

  predicate IsWaiting(t: Stream) {
    t.at.Testing? || t.at.Sleeping?
  }

  function Waiting(t: Stream): nat {
    if IsWaiting(t) then t.at.added else 0
  }

  function Admitted(t: Stream): nat {
    t.lastReq + t.lastResp
  }

  /** Admitted chunks that had to pass the limit test. */
  function Tested(limit: int, t: Stream): nat {
    (if t.lastReq < limit then t.lastReq else 0) + (if t.lastResp < limit then t.lastResp else 0)
  }

  function WaitingTotal(ts: seq<Stream>): nat {
    if ts == [] then 0 else Waiting(ts[0]) + WaitingTotal(ts[1..])
  }

  function AdmittedTotal(ts: seq<Stream>): nat {
    if ts == [] then 0 else Admitted(ts[0]) + AdmittedTotal(ts[1..])
  }

  function TestedTotal(limit: int, ts: seq<Stream>): nat {
    if ts == [] then 0 else Tested(limit, ts[0]) + TestedTotal(limit, ts[1..])
  }

  lemma {:induction false} TotalsUpdate(limit: int, ts: seq<Stream>, i: nat, t: Stream)
    requires i < |ts|
    ensures WaitingTotal(ts[i := t]) == WaitingTotal(ts) - Waiting(ts[i]) + Waiting(t)
    ensures AdmittedTotal(ts[i := t]) == AdmittedTotal(ts) - Admitted(ts[i]) + Admitted(t)
    ensures TestedTotal(limit, ts[i := t]) == TestedTotal(limit, ts) - Tested(limit, ts[i]) + Tested(limit, t)
  {
    if i == 0 {
      assert ts[0 := t][1..] == ts[1..];
    } else {
      TotalsUpdate(limit, ts[1..], i - 1, t);
      assert ts[i := t][1..] == ts[1..][i - 1 := t];
    }
  }

  lemma {:induction false} TotalsAppend(limit: int, ts: seq<Stream>, t: Stream)
    ensures WaitingTotal(ts + [t]) == WaitingTotal(ts) + Waiting(t)
    ensures AdmittedTotal(ts + [t]) == AdmittedTotal(ts) + Admitted(t)
    ensures TestedTotal(limit, ts + [t]) == TestedTotal(limit, ts) + Tested(limit, t)
  {
    if ts == [] {
      assert ts + [t] == [t];
    } else {
      TotalsAppend(limit, ts[1..], t);
      assert (ts + [t])[1..] == ts[1..] + [t];
    }
  }

  lemma {:induction false} TestedAtMostAdmitted(limit: int, ts: seq<Stream>)
    ensures TestedTotal(limit, ts) <= AdmittedTotal(ts)
  {
    if ts != [] {
      TestedAtMostAdmitted(limit, ts[1..]);
    }
  }

  /** Nothing is held while receiving, waiting or ended; only chunks below the limit wait. */
  ghost predicate Tidy(limit: int, t: Stream) {
    && (t.at.LoopTop? || t.at.Scanning? || t.at.Returning? || (t.lastReq == 0 && t.lastResp == 0))
    && (t.at.Testing? || t.at.Sleeping? ==> t.at.added < limit)
    && (t.lastReq == 0 || t.lastResp == 0)
  }

  ghost predicate Inv(limit: int, s: State) {
    && s.inflight == WaitingTotal(s.streams) + AdmittedTotal(s.streams)
    && TestedTotal(limit, s.streams) <= (if limit > 0 then limit else 0)
    && (forall i :: 0 <= i < |s.streams| ==> Tidy(limit, s.streams[i]))
  }

  function Held(t: Stream): nat {
    match t.at
    case Testing(_, n) => n + t.lastReq + t.lastResp
    case Sleeping(_, n) => n + t.lastReq + t.lastResp
    case _ => t.lastReq + t.lastResp
  }

  /** A move accounts for its change of the counter and respects the limit. */
  ghost predicate Sound(limit: int, inflight: int, t: Stream, e: Effect) {
    && Tidy(limit, e.stream)
    && e.delta == Held(e.stream) - Held(t)
    && (Tested(limit, e.stream) <= Tested(limit, t) || (0 < limit && inflight + e.delta <= limit))
  }

  lemma MoveIsSound(limit: int, inflight: int, t: Stream, a: Action)
    requires CanMove(t, a) && Tidy(limit, t)
    ensures Sound(limit, inflight, t, Move(limit, inflight, t, a))
  {
  }

  lemma SoundKeepsInv(limit: int, s: State, i: nat, e: Effect)
    requires Inv(limit, s) && i < |s.streams| && Sound(limit, s.inflight, s.streams[i], e)
    ensures Inv(limit, State(s.inflight + e.delta, s.streams[i := e.stream]))
  {
    TotalsUpdate(limit, s.streams, i, e.stream);
    assert Held(e.stream) == Waiting(e.stream) + Admitted(e.stream);
    assert Held(s.streams[i]) == Waiting(s.streams[i]) + Admitted(s.streams[i]);
    TestedAtMostAdmitted(limit, s.streams[i := e.stream]);
  }

  lemma OpenKeepsInv(limit: int, s: State)
    requires Inv(limit, s)
    ensures Inv(limit, Step(limit, s, Open))
  {
    TotalsAppend(limit, s.streams, Stream(LoopTop, 0, 0));
  }

  lemma StepKeepsInv(limit: int, s: State, a: Action)
    requires Inv(limit, s) && Enabled(s, a)
    ensures Inv(limit, Step(limit, s, a))
  {
    if a.Open? {
      OpenKeepsInv(limit, s);
    } else {
      var e := Move(limit, s.inflight, s.streams[a.i], a);
      assert Sound(limit, s.inflight, s.streams[a.i], e) by { MoveIsSound(limit, s.inflight, s.streams[a.i], a); }
      SoundKeepsInv(limit, s, a.i, e);
    }
  }

  /** In every interleaving the counter is exactly what waiting and admitted chunks
      hold, and chunks below the limit are never admitted beyond it. */
  lemma {:induction false} RunKeepsInv(limit: int, s: State, acts: seq<Action>)
    requires Inv(limit, s) && CanRun(limit, s, acts)
    ensures Inv(limit, Run(limit, s, acts))
    decreases |acts|
  {
    if acts != [] {
      StepKeepsInv(limit, s, acts[0]);
      RunKeepsInv(limit, Step(limit, s, acts[0]), acts[1..]);
    }
  }

  lemma {:induction false} AllEndedHoldNothing(limit: int, ts: seq<Stream>)
    requires forall i :: 0 <= i < |ts| ==> ts[i].at.Ended? && Tidy(limit, ts[i])
    ensures WaitingTotal(ts) == 0 && AdmittedTotal(ts) == 0
  {
    if ts != [] {
      AllEndedHoldNothing(limit, ts[1..]);
    }
  }

  ghost predicate AllEnded(s: State) {
    forall i :: 0 <= i < |s.streams| ==> s.streams[i].at.Ended?
  }

  lemma EndedStateIsZero(limit: int, s: State)
    requires Inv(limit, s) && AllEnded(s)
    ensures s.inflight == 0
  {
    AllEndedHoldNothing(limit, s.streams);
  }

  /** Whatever way each stream ended, the counter is back at zero. */
  lemma CounterReturnsToZero(limit: int, acts: seq<Action>, s: State)
    requires CanRun(limit, Init, acts) && s == Run(limit, Init, acts) && AllEnded(s)
    ensures s.inflight == 0
  {
    RunKeepsInv(limit, Init, acts);
    EndedStateIsZero(limit, s);
  }

  /** With nothing admitted, a waiter gets through exactly when all waiters together fit. */
  lemma WaiterProceedsIff(limit: int, s: State, i: nat)
    requires Inv(limit, s) && AdmittedTotal(s.streams) == 0 && Enabled(s, Poll(i))
    ensures Step(limit, s, Poll(i)).streams[i].at.Scanning? <==> WaitingTotal(s.streams) <= limit
  {
    PollAdmitsIff(limit, s.inflight, s.streams[i], i);
  }

  lemma PollAdmitsIff(limit: int, inflight: int, t: Stream, i: nat)
    requires CanMove(t, Poll(i))
    ensures Move(limit, inflight, t, Poll(i)).stream.at.Scanning? <==> inflight <= limit
  {
  }

  // ---------- waiters can block each other ----------

  ghost predicate StillWaiting(ts: seq<Stream>, us: seq<Stream>) {
    && |ts| <= |us|
    && (forall i :: 0 <= i < |ts| && IsWaiting(ts[i]) ==> IsWaiting(us[i]) && Waiting(us[i]) == Waiting(ts[i]))
  }

  ghost predicate KeepsWaiting(t: Stream, u: Stream) {
    Waiting(t) <= Waiting(u) && (IsWaiting(t) ==> IsWaiting(u) && Waiting(u) == Waiting(t))
  }

  lemma WaiterStays(limit: int, inflight: int, t: Stream, a: Action)
    requires CanMove(t, a) && !a.Cancel? && inflight > limit
    ensures KeepsWaiting(t, Move(limit, inflight, t, a).stream)
  {
  }

  lemma ReplaceKeepsWaiters(limit: int, ts: seq<Stream>, i: nat, u: Stream)
    requires i < |ts| && KeepsWaiting(ts[i], u)
    ensures StillWaiting(ts, ts[i := u]) && WaitingTotal(ts) <= WaitingTotal(ts[i := u])
  {
    TotalsUpdate(limit, ts, i, u);
  }

  lemma StepKeepsWaiters(limit: int, s: State, a: Action)
    requires Inv(limit, s) && Enabled(s, a) && !a.Cancel? && WaitingTotal(s.streams) > limit
    ensures StillWaiting(s.streams, Step(limit, s, a).streams)
    ensures WaitingTotal(Step(limit, s, a).streams) > limit
  {
    if a.Open? {
      TotalsAppend(limit, s.streams, Stream(LoopTop, 0, 0));
    } else {
      WaiterStays(limit, s.inflight, s.streams[a.i], a);
      ReplaceKeepsWaiters(limit, s.streams, a.i, Move(limit, s.inflight, s.streams[a.i], a).stream);
    }
  }

  /** Bytes are counted before waiting, so once the waiters alone exceed the limit
      none of them is ever admitted until one is cancelled. */
  lemma {:induction false} OnlyCancelUnblocks(limit: int, s: State, acts: seq<Action>)
    requires Inv(limit, s) && CanRun(limit, s, acts) && WaitingTotal(s.streams) > limit
    requires CancelFree(acts)
    ensures StillWaiting(s.streams, Run(limit, s, acts).streams)
    ensures WaitingTotal(Run(limit, s, acts).streams) > limit
    decreases |acts|
  {
    if acts != [] {
      StepKeepsInv(limit, s, acts[0]);
      StepKeepsWaiters(limit, s, acts[0]);
      OnlyCancelUnblocks(limit, Step(limit, s, acts[0]), acts[1..]);
    }
  }

  // ---------- exactly when a waiter can still be admitted ----------

  ghost predicate CancelFree(acts: seq<Action>) {
    forall k :: 0 <= k < |acts| ==> !acts[k].Cancel?
  }

  ghost predicate Leads(limit: int, s: State, acts: seq<Action>, t: State) {
    CancelFree(acts) && CanRun(limit, s, acts) && Run(limit, s, acts) == t
  }

  /** Some run without a cancel takes s to t. */
  ghost predicate CanReach(limit: int, s: State, t: State) {
    exists acts :: Leads(limit, s, acts, t)
  }

  lemma {:induction false} LeadsThen(limit: int, s: State, p: seq<Action>, t: State, q: seq<Action>, u: State)
    requires Leads(limit, s, p, t) && Leads(limit, t, q, u)
    ensures Leads(limit, s, p + q, u)
    decreases |p|
  {
    if p == [] {
      assert p + q == q;
    } else {
      assert (p + q)[1..] == p[1..] + q;
      LeadsThen(limit, Step(limit, s, p[0]), p[1..], t, q, u);
    }
  }

  lemma ReachThen(limit: int, s: State, t: State, u: State)
    requires CanReach(limit, s, t) && CanReach(limit, t, u)
    ensures CanReach(limit, s, u)
  {
    var p :| Leads(limit, s, p, t);
    var q :| Leads(limit, t, q, u);
    LeadsThen(limit, s, p, t, q, u);
  }

  lemma ReachSelf(limit: int, s: State)
    ensures CanReach(limit, s, s)
  {
    assert Leads(limit, s, [], s);
  }

  /** One more step of stream a.i after a run. */
  lemma Extended(limit: int, s: State, t: State, a: Action) returns (u: State)
    requires CanReach(limit, s, t) && Inv(limit, t) && Enabled(t, a) && !a.Cancel? && !a.Open?
    ensures CanReach(limit, s, u) && Inv(limit, u)
    ensures u.streams == t.streams[a.i := Move(limit, t.inflight, t.streams[a.i], a).stream]
    ensures u.inflight == t.inflight + Move(limit, t.inflight, t.streams[a.i], a).delta
  {
    u := Step(limit, t, a);
    StepKeepsInv(limit, t, a);
    OneStepRun(limit, t, a);
    ReachThen(limit, s, t, u);
  }

  lemma OneStepRun(limit: int, t: State, a: Action)
    requires Enabled(t, a) && !a.Cancel?
    ensures CanReach(limit, t, Step(limit, t, a))
  {
    var u := Step(limit, t, a);
    assert [a][1..] == [];
    assert CanRun(limit, u, []) && Run(limit, u, []) == u;
    assert CanRun(limit, t, [a]);
    assert Leads(limit, t, [a], Step(limit, t, a));
  }

  /** A stream that is not waiting can always give back what it holds. */
  lemma DrainOne(limit: int, s: State, t: State, j: nat) returns (u: State, x: Stream)
    requires CanReach(limit, s, t) && Inv(limit, t) && j < |t.streams| && !IsWaiting(t.streams[j])
    ensures CanReach(limit, s, u) && Inv(limit, u)
    ensures u.streams == t.streams[j := x] && !IsWaiting(x) && Clear(x)
  {
    u, x := t, t.streams[j];
    assert Tidy(limit, x);
    if x.at.Scanning? {
      u := Extended(limit, s, u, NextMessage(j));
      x := x.(at := LoopTop);
      assert u.streams == t.streams[j := x];
    }
    assert u.streams[j] == x;
    u := ReleaseBoth(limit, s, u, j);
    x := x.(lastReq := 0, lastResp := 0);
    assert u.streams == t.streams[j := x];
  }

  lemma ReleaseBoth(limit: int, s: State, t: State, j: nat) returns (u: State)
    requires CanReach(limit, s, t) && Inv(limit, t) && j < |t.streams|
    requires !IsWaiting(t.streams[j]) && !t.streams[j].at.Scanning?
    ensures CanReach(limit, s, u) && Inv(limit, u)
    ensures u.streams == t.streams[j := t.streams[j].(lastReq := 0, lastResp := 0)]
  {
    u := t;
    assert Tidy(limit, u.streams[j]);
    if u.streams[j].lastReq > 0 {
      u := Extended(limit, s, u, ReleaseReq(j));
    } else if u.streams[j].lastResp > 0 {
      u := Extended(limit, s, u, ReleaseResp(j));
    }
  }

  /** Nothing of an admitted chunk is held. */
  predicate Clear(t: Stream) {
    t.lastReq == 0 && t.lastResp == 0
  }

  ghost predicate KeptAt(t: Stream, u: Stream) {
    (IsWaiting(t) ==> u == t) && (!IsWaiting(t) ==> !IsWaiting(u))
  }

  /** Streams below k hold nothing admitted; waiters are as they were. */
  ghost predicate Drained(ts: seq<Stream>, us: seq<Stream>, k: nat) {
    && |us| == |ts|
    && (forall j :: 0 <= j < |ts| ==> KeptAt(ts[j], us[j]))
    && (forall j :: 0 <= j < k && j < |us| ==> Clear(us[j]))
  }

  lemma DrainedNext(ts: seq<Stream>, mid: seq<Stream>, us: seq<Stream>, k: nat, x: Stream)
    requires Drained(ts, mid, k) && k < |ts| && us == mid[k := x] && Clear(x) && KeptAt(ts[k], x)
    ensures Drained(ts, us, k + 1)
  {
  }

  lemma DrainNext(limit: int, s: State, t: State, k: nat) returns (u: State)
    requires CanReach(limit, s, t) && Inv(limit, t) && Drained(s.streams, t.streams, k) && k < |s.streams|
    ensures CanReach(limit, s, u) && Inv(limit, u) && Drained(s.streams, u.streams, k + 1)
  {
    var x := t.streams[k];
    assert Tidy(limit, x) && KeptAt(s.streams[k], x);
    u := t;
    if !IsWaiting(x) {
      u, x := DrainOne(limit, s, t, k);
    } else {
      assert u.streams == t.streams[k := x];
    }
    DrainedNext(s.streams, t.streams, u.streams, k, x);
  }

  lemma {:induction false} DrainAll(limit: int, s: State, k: nat) returns (u: State)
    requires Inv(limit, s) && k <= |s.streams|
    ensures CanReach(limit, s, u) && Inv(limit, u) && Drained(s.streams, u.streams, k)
  {
    if k == 0 {
      u := s;
      ReachSelf(limit, s);
    } else {
      u := DrainAll(limit, s, k - 1);
      u := DrainNext(limit, s, u, k - 1);
    }
  }

  lemma {:induction false} DrainedTotals(ts: seq<Stream>, us: seq<Stream>)
    requires Drained(ts, us, |ts|)
    ensures WaitingTotal(us) == WaitingTotal(ts) && AdmittedTotal(us) == 0
  {
    if ts != [] {
      assert Drained(ts[1..], us[1..], |ts[1..]|);
      DrainedTotals(ts[1..], us[1..]);
    }
  }

  lemma AdmitWaiter(limit: int, s: State, t: State, i: nat) returns (u: State)
    requires CanReach(limit, s, t) && Inv(limit, t) && i < |t.streams| && IsWaiting(t.streams[i])
    requires t.inflight <= limit
    ensures CanReach(limit, s, u) && i < |u.streams| && u.streams[i].at.Scanning?
  {
    u := t;
    if u.streams[i].at.Sleeping? {
      u := Extended(limit, s, u, Wake(i));
    }
    PollAdmitsIff(limit, u.inflight, u.streams[i], i);
    u := Extended(limit, s, u, Poll(i));
  }

  ghost predicate Admits(s: State, i: nat) {
    i < |s.streams| && s.streams[i].at.Scanning?
  }

  /** A run without cancels that admits waiter i exists if and only if all waiters together fit. */
  lemma AdmissibleIff(limit: int, s: State, i: nat)
    requires Inv(limit, s) && i < |s.streams| && IsWaiting(s.streams[i])
    ensures (exists t :: CanReach(limit, s, t) && Admits(t, i)) <==> WaitingTotal(s.streams) <= limit
  {
    if WaitingTotal(s.streams) <= limit {
      var t := DrainAll(limit, s, |s.streams|);
      DrainedTotals(s.streams, t.streams);
      var u := AdmitWaiter(limit, s, t, i);
      assert Admits(u, i);
    } else {
      forall t | CanReach(limit, s, t) ensures !Admits(t, i) {
        var acts :| Leads(limit, s, acts, t);
        OnlyCancelUnblocks(limit, s, acts);
      }
    }
  }

  // ---------- the blocked state is reachable ----------

  lemma {:induction false} RunAppend(limit: int, s: State, acts: seq<Action>, a: Action)
    requires CanRun(limit, s, acts) && Enabled(Run(limit, s, acts), a)
    ensures CanRun(limit, s, acts + [a])
    ensures Run(limit, s, acts + [a]) == Step(limit, Run(limit, s, acts), a)
    decreases |acts|
  {
    if acts == [] {
      assert acts + [a] == [a];
    } else {
      RunAppend(limit, Step(limit, s, acts[0]), acts[1..], a);
      assert (acts + [a])[1..] == acts[1..] + [a];
    }
  }

  /** Two chunks of six bytes under a limit of ten reach such a state. */
  lemma MutualBlockIsReachable() returns (acts: seq<Action>)
    ensures CanRun(10, Init, acts) && AdmittedTotal(Run(10, Init, acts).streams) == 0
    ensures WaitingTotal(Run(10, Init, acts).streams) > 10
  {
    var recv, wait := Stream(Receiving, 0, 0), Stream(Testing(Request, 6), 0, 0);
    acts := TwoReceiving(Stream(LoopTop, 0, 0), recv);
    acts := BothWait(acts, recv, wait);
    PairTotals(wait);
  }

  lemma PairTotals(t: Stream)
    ensures WaitingTotal([t, t]) == 2 * Waiting(t) && AdmittedTotal([t, t]) == 2 * Admitted(t)
  {
    assert [t, t][1..] == [t] && [t][1..] == [];
    assert WaitingTotal([t]) == Waiting(t) && AdmittedTotal([t]) == Admitted(t);
  }

  lemma WaitStep(s: State, i: nat, n: nat)
    requires i < |s.streams| && s.streams[i] == Stream(Receiving, 0, 0) && 0 < n < 10
    ensures Enabled(s, ReceiveBody(i, Request, n))
    ensures Step(10, s, ReceiveBody(i, Request, n)) ==
      State(s.inflight + n, s.streams[i := Stream(Testing(Request, n), 0, 0)])
  {
  }

  lemma BothWait(before: seq<Action>, recv: Stream, wait: Stream) returns (acts: seq<Action>)
    requires recv == Stream(Receiving, 0, 0) && wait == Stream(Testing(Request, 6), 0, 0)
    requires CanRun(10, Init, before) && Run(10, Init, before) == State(0, [recv, recv])
    ensures CanRun(10, Init, acts) && Run(10, Init, acts) == State(12, [wait, wait])
  {
    assert [recv, recv][0 := wait] == [wait, recv];
    assert [wait, recv][1 := wait] == [wait, wait];
    WaitStep(State(0, [recv, recv]), 0, 6);
    acts := Extend(before, ReceiveBody(0, Request, 6), State(6, [wait, recv]));
    WaitStep(State(6, [wait, recv]), 1, 6);
    acts := Extend(acts, ReceiveBody(1, Request, 6), State(12, [wait, wait]));
  }

  lemma TwoReceiving(top: Stream, recv: Stream) returns (acts: seq<Action>)
    requires top == Stream(LoopTop, 0, 0) && recv == Stream(Receiving, 0, 0)
    ensures CanRun(10, Init, acts) && Run(10, Init, acts) == State(0, [recv, recv])
  {
    assert [top] + [top] == [top, top];
    assert [top, top][0 := recv] == [recv, top];
    assert [recv, top][1 := recv] == [recv, recv];
    acts := Extend([], Open, State(0, [top]));
    acts := Extend(acts, Open, State(0, [top, top]));
    acts := Extend(acts, ToReceive(0), State(0, [recv, top]));
    acts := Extend(acts, ToReceive(1), State(0, [recv, recv]));
  }

  lemma Extend(acts: seq<Action>, a: Action, s: State) returns (r: seq<Action>)
    requires CanRun(10, Init, acts) && Enabled(Run(10, Init, acts), a) && Step(10, Run(10, Init, acts), a) == s
    ensures CanRun(10, Init, r) && Run(10, Init, r) == s
  {
    RunAppend(10, Init, acts, a);
    r := acts + [a];
  }
}
