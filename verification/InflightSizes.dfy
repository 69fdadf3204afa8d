/** The in-flight counter against the sizes of the bodies actually received
    (internal/interfaces/grpc/enforcer/process_stream.go). */
module InflightSizes {
  import opened Inflight

  /** Size of the body stream i received last; 0 after another message or none. */
  ghost function LastBody(acts: seq<Action>, i: nat): nat {
    if acts == [] then 0
    else
      var a, init := acts[|acts| - 1], acts[..|acts| - 1];
      match a
      case ReceiveBody(j, _, n) => if j == i then n else LastBody(init, i)
      case ReceiveOther(j) => if j == i then 0 else LastBody(init, i)
      case _ => LastBody(init, i)
  }

  predicate Busy(t: Stream) {
    t.at.Testing? || t.at.Sleeping? || t.at.Scanning?
  }

  /** The bytes stream t holds are those of the body it received last. */
  ghost predicate Carries(t: Stream, size: nat) {
    && (IsWaiting(t) ==> t.at.added == size)
    && (t.at.Scanning? ==> t.lastReq + t.lastResp == size)
  }

  ghost predicate AllCarry(s: State, acts: seq<Action>) {
    forall i :: 0 <= i < |s.streams| ==> Carries(s.streams[i], LastBody(acts, i))
  }

  lemma {:induction false} RunInit(limit: int, s: State, acts: seq<Action>)
    requires acts != [] && CanRun(limit, s, acts)
    ensures var init, a := acts[..|acts| - 1], acts[|acts| - 1];
      CanRun(limit, s, init) && Enabled(Run(limit, s, init), a) && Run(limit, s, acts) == Step(limit, Run(limit, s, init), a)
    decreases |acts|
  {
    var init := acts[..|acts| - 1];
    if init == [] {
      assert acts[1..] == [];
    } else {
      RunInit(limit, Step(limit, s, acts[0]), acts[1..]);
      assert init[1..] == acts[1..][..|acts[1..]| - 1];
    }
  }

  lemma MoveCarries(limit: int, inflight: int, t: Stream, a: Action, size: nat)
    requires limit > 0 && CanMove(t, a) && Tidy(limit, t) && Carries(t, size)
    ensures !a.Open? ==> Carries(Move(limit, inflight, t, a).stream, NextSize(a, a.i, size))
  {
  }

  lemma {:induction false} RunCarries(limit: int, acts: seq<Action>, s: State)
    requires limit > 0 && CanRun(limit, Init, acts) && s == Run(limit, Init, acts)
    ensures Inv(limit, s) && AllCarry(s, acts)
    decreases |acts|
  {
    if acts != [] {
      RunInit(limit, Init, acts);
      var init, a := acts[..|acts| - 1], acts[|acts| - 1];
      assert acts == init + [a];
      var t := Run(limit, Init, init);
      RunCarries(limit, init, t);
      StepKeepsInv(limit, t, a);
      StepCarries(limit, t, a, init, acts);
    }
  }

  /** How one action changes the size of the body received last. */
  ghost function NextSize(a: Action, i: nat, size: nat): nat {
    match a
    case ReceiveBody(j, _, n) => if j == i then n else size
    case ReceiveOther(j) => if j == i then 0 else size
    case _ => size
  }

  lemma LastBodyNext(init: seq<Action>, a: Action, i: nat)
    ensures LastBody(init + [a], i) == NextSize(a, i, LastBody(init, i))
  {
    assert (init + [a])[..|init|] == init;
  }

  lemma StepCarries(limit: int, s: State, a: Action, init: seq<Action>, acts: seq<Action>)
    requires limit > 0 && Inv(limit, s) && Enabled(s, a) && AllCarry(s, init)
    requires acts == init + [a]
    ensures AllCarry(Step(limit, s, a), acts)
  {
    if a.Open? {
      forall i | 0 <= i < |s.streams| ensures Carries(s.streams[i], LastBody(acts, i)) {
        LastBodyNext(init, a, i);
      }
    } else {
      var e := Move(limit, s.inflight, s.streams[a.i], a);
      assert Tidy(limit, s.streams[a.i]) && Carries(s.streams[a.i], LastBody(init, a.i));
      MoveCarries(limit, s.inflight, s.streams[a.i], a, LastBody(init, a.i));
      ReplacedCarries(s.streams, a, e.stream, init);
    }
  }

  lemma ReplacedCarries(ts: seq<Stream>, a: Action, u: Stream, init: seq<Action>)
    requires !a.Open? && a.i < |ts| && Carries(u, NextSize(a, a.i, LastBody(init, a.i)))
    requires forall i :: 0 <= i < |ts| ==> Carries(ts[i], LastBody(init, i))
    ensures forall i :: 0 <= i < |ts| ==> Carries(ts[a.i := u][i], LastBody(init + [a], i))
  {
    forall i | 0 <= i < |ts| ensures Carries(ts[a.i := u][i], LastBody(init + [a], i)) {
      LastBodyNext(init, a, i);
    }
  }

  // ---------- totals ----------

  /** Bodies received last by streams that wait or scan. */
  ghost function BusyTotal(ts: seq<Stream>, sizes: seq<nat>): nat
    requires |ts| == |sizes|
  {
    if ts == [] then 0 else (if Busy(ts[0]) then sizes[0] else 0) + BusyTotal(ts[1..], sizes[1..])
  }

  /** Those below the limit that are being scanned. */
  ghost function SmallScanned(limit: int, ts: seq<Stream>, sizes: seq<nat>): nat
    requires |ts| == |sizes|
  {
    if ts == [] then 0
    else (if ts[0].at.Scanning? && sizes[0] < limit then sizes[0] else 0) + SmallScanned(limit, ts[1..], sizes[1..])
  }

  ghost function Sizes(acts: seq<Action>, n: nat): (r: seq<nat>)
    ensures |r| == n && forall i :: 0 <= i < n ==> r[i] == LastBody(acts, i)
  {
    seq(n, i requires 0 <= i < n => LastBody(acts, i))
  }

  lemma {:induction false} BusyIsHeld(limit: int, ts: seq<Stream>, sizes: seq<nat>)
    requires |ts| == |sizes|
    requires forall i :: 0 <= i < |ts| ==> Tidy(limit, ts[i]) && Carries(ts[i], sizes[i])
    ensures BusyTotal(ts, sizes) <= WaitingTotal(ts) + AdmittedTotal(ts)
    ensures (forall i :: 0 <= i < |ts| ==> !ts[i].at.LoopTop? && !ts[i].at.Returning?) ==>
      BusyTotal(ts, sizes) == WaitingTotal(ts) + AdmittedTotal(ts)
    ensures SmallScanned(limit, ts, sizes) <= TestedTotal(limit, ts)
  {
    if ts != [] {
      assert Tidy(limit, ts[0]) && Carries(ts[0], sizes[0]);
      BusyIsHeld(limit, ts[1..], sizes[1..]);
    }
  }

  ghost predicate NoneReleasing(s: State) {
    forall i :: 0 <= i < |s.streams| ==> !s.streams[i].at.LoopTop? && !s.streams[i].at.Returning?
  }

  /** In every interleaving a body stays counted from its arrival until its stream's next turn: the
      counter is at least what waiting and scanning streams received last, and exactly that while no
      stream is between a turn and its release. Bodies below the limit are never scanned beyond it. */
  lemma BodiesStayCounted(limit: int, acts: seq<Action>, s: State)
    requires limit > 0 && CanRun(limit, Init, acts) && s == Run(limit, Init, acts)
    ensures s.inflight >= BusyTotal(s.streams, Sizes(acts, |s.streams|))
    ensures NoneReleasing(s) ==> s.inflight == BusyTotal(s.streams, Sizes(acts, |s.streams|))
    ensures SmallScanned(limit, s.streams, Sizes(acts, |s.streams|)) <= limit
  {
    RunCarries(limit, acts, s);
    CountedIn(limit, s, acts);
  }

  lemma CountedIn(limit: int, s: State, acts: seq<Action>)
    requires limit > 0 && Inv(limit, s) && AllCarry(s, acts)
    ensures s.inflight >= BusyTotal(s.streams, Sizes(acts, |s.streams|))
    ensures NoneReleasing(s) ==> s.inflight == BusyTotal(s.streams, Sizes(acts, |s.streams|))
    ensures SmallScanned(limit, s.streams, Sizes(acts, |s.streams|)) <= limit
  {
    BusyIsHeld(limit, s.streams, Sizes(acts, |s.streams|));
  }
}
