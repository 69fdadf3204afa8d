/** All runs of the job manager: critical sections of submitters, cancellers, cleanup
    and workers interleave in any order (internal/jobs/manager.go). */
module JobRuns {
  import opened Ordering
  import opened RulePacks
  import opened Jobs

  /** What a worker goroutine or durable consumer is doing. */
  datatype Worker = Idle | InHand(id: string) | Processing(id: string)

  /** `delivered` are messages the durable queue may hand out, any number of times; `ran` records
      each call of a processor, `finished` what it came to and when, `refused` each job whose `Submit`
      returned an id and an error, `queued` and `handed` what went into and came out of the queue. */
  datatype System = System(
    books: Books, workers: seq<Worker>, delivered: set<string>, ran: seq<string>, finished: map<string, Ended>,
    refused: set<string>, queued: seq<string>, handed: seq<string>)

  datatype Ended = Ended(outcome: Outcome, at: int)

  datatype Action =
    | Register(jobType: string)
    | Submit(id: string, newType: string, input: string, sent: bool)
    | Cancel(id: string, now: int)
    | Receive(w: nat)
    | Deliver(w: nat, id: string)
    | Begin(w: nat, now: int)
    | Finish(w: nat, outcome: Outcome, now: int)
    | Cleanup(cutoff: int)

  predicate Enabled(durable: bool, s: System, a: Action) {
    match a
    case Register(_) => true
    case Submit(id, _, _, _) => id !in s.books.store  // UUIDs are fresh
    case Cancel(_, _) => true
    case Receive(w) => !durable && w < |s.workers| && s.workers[w].Idle? && s.books.queue != []
    case Deliver(w, id) => durable && w < |s.workers| && s.workers[w].Idle? && id in s.delivered
    case Begin(w, _) => w < |s.workers| && s.workers[w].InHand?
    case Finish(w, _, _) => w < |s.workers| && s.workers[w].Processing?
    case Cleanup(_) => true
  }

  /** `Submit` creates the job and then cannot hand it over: the send failed, or the queue is full. */
  predicate Refuses(durable: bool, b: Books, jobType: string, sent: bool) {
    jobType in b.processors && if durable then !sent else |b.queue| >= QUEUE_CAPACITY
  }

  function Step(durable: bool, s: System, a: Action): System
    requires Enabled(durable, s, a)
  {
    match a
    case Register(t) => s.(books := Registered(s.books, t))
    case Submit(id, t, input, sent) =>
      s.(books := Submitted(s.books, id, t, input, durable, sent),
         delivered := if t in s.books.processors then s.delivered + {id} else s.delivered,
         refused := if Refuses(durable, s.books, t, sent) then s.refused + {id} else s.refused,
         queued := if !durable && t in s.books.processors && !Refuses(durable, s.books, t, sent) then s.queued + [id] else s.queued)
    case Cancel(id, now) => s.(books := AfterCancel(s.books, id, now))
    case Receive(w) =>
      s.(books := s.books.(queue := s.books.queue[1..]), workers := s.workers[w := InHand(s.books.queue[0])],
         handed := s.handed + [s.books.queue[0]])
    case Deliver(w, id) => s.(workers := s.workers[w := InHand(id)])
    case Begin(w, now) =>
      var id := s.workers[w].id;
      var started := CanBegin(s.books, id);
      s.(books := AfterBegin(s.books, id, now), workers := s.workers[w := if started then Processing(id) else Idle],
         ran := if started then s.ran + [id] else s.ran)
    case Finish(w, o, now) =>
      s.(books := AfterFinish(s.books, s.workers[w].id, o, now), workers := s.workers[w := Idle],
         finished := s.finished[s.workers[w].id := Ended(o, now)])
    case Cleanup(cutoff) => s.(books := AfterCleanup(s.books, cutoff))
  }

  function Start(n: nat): System {
    System(Books(map[], {}, [], {}), seq(n, _ => Idle), {}, [], map[], {}, [], [])
  }

  ghost predicate CanRun(durable: bool, s: System, acts: seq<Action>)
    decreases |acts|
  {
    acts == [] || (Enabled(durable, s, acts[0]) && CanRun(durable, Step(durable, s, acts[0]), acts[1..]))
  }

  ghost function Run(durable: bool, s: System, acts: seq<Action>): System
    requires CanRun(durable, s, acts)
    decreases |acts|
  {
    if acts == [] then s else Run(durable, Step(durable, s, acts[0]), acts[1..])
  }

  // ---------- the invariant ----------

  ghost predicate Known(s: System) {
    && s.books.live <= s.books.store.Keys
    && s.delivered <= s.books.store.Keys && s.refused <= s.books.store.Keys
    && (forall i :: 0 <= i < |s.books.queue| ==> s.books.queue[i] in s.books.store)
    && (forall i :: 0 <= i < |s.ran| ==> s.ran[i] in s.books.store)
    && (forall w :: 0 <= w < |s.workers| && !s.workers[w].Idle? ==> s.workers[w].id in s.books.store)
  }

  /** Facts about one job object. */
  ghost predicate JobOk(b: Books, id: string, j: Job) {
    && j.jobType in b.processors
    && (!Terminal(j.status) ==> id in b.live)
    && (j.result.Some? ==> j.status.Completed? || j.status.Failed?)
    && (j.status.Completed? || j.status.Cancelled? ==> j.completedAt.Some?)
  }

  ghost predicate JobsOk(b: Books) {
    forall id :: id in b.store ==> JobOk(b, id, b.store[id])
  }

  /** A job is processed at most once, and only by the worker that began it. */
  ghost predicate RanOnce(s: System) {
    && NoDup(s.ran)
    && (forall i :: 0 <= i < |s.ran| && s.ran[i] in s.books.store ==> !s.books.store[s.ran[i]].status.Pending?)
    && (forall w :: 0 <= w < |s.workers| && s.workers[w].Processing? && s.workers[w].id in s.books.store ==>
         s.books.store[s.workers[w].id].status.Running? || s.books.store[s.workers[w].id].status.Cancelled?)
    && (forall v, w :: 0 <= v < w < |s.workers| && s.workers[v].Processing? && s.workers[w].Processing? ==>
         s.workers[v].id != s.workers[w].id)
  }

  /** A pending in-memory job is queued or in some worker's hand. */
  ghost predicate Accounted(s: System, id: string) {
    id in s.books.queue || exists w :: 0 <= w < |s.workers| && s.workers[w] == InHand(id)
  }

  ghost predicate NoneForgotten(durable: bool, s: System) {
    durable || forall id :: id in s.books.store && s.books.store[id].status.Pending? ==> Accounted(s, id)
  }

  /** Failed without a completion time, as `Submit` leaves a job it could not hand over. */
  predicate Stranded(j: Job) {
    j.status.Failed? && j.completedAt.None?
  }

  /** Those are exactly the refused jobs, and none of them ever ran. */
  ghost predicate RefusedExactly(s: System) {
    && (forall id :: id in s.books.store ==> (Stranded(s.books.store[id]) <==> id in s.refused))
    && (forall i :: 0 <= i < |s.ran| ==> s.ran[i] !in s.refused)
  }

  ghost predicate Core(durable: bool, s: System) {
    Known(s) && JobsOk(s.books) && RanOnce(s) && NoneForgotten(durable, s) && RefusedExactly(s)
  }

  /** Unless it was cancelled, the job says what its processor came to. */
  ghost predicate Settled(j: Job, e: Ended) {
    j.status.Cancelled? ||
    (&& (if e.outcome.error.None? then j.status.Completed? && j.progress == 100
         else j.status.Failed? && j.error == e.outcome.error.value && j.progress == e.outcome.progress)
     && j.result == e.outcome.result && j.completedAt == Some(e.at))
  }

  /** Finished jobs carry their outcome; a job being processed is not finished yet. */
  ghost predicate OutcomesKept(s: System) {
    && (forall id :: id in s.finished ==> id in s.ran && id in s.books.store && Settled(s.books.store[id], s.finished[id]))
    && (forall w :: 0 <= w < |s.workers| && s.workers[w].Processing? ==> s.workers[w].id in s.ran && s.workers[w].id !in s.finished)
  }

  /** Only a finished job is completed, and a failed one is finished or was refused. */
  ghost predicate OutcomesEarned(s: System) {
    forall id :: id in s.books.store ==>
      (s.books.store[id].status.Completed? ==> id in s.finished) &&
      (s.books.store[id].status.Failed? ==> id in s.finished || id in s.refused)
  }

  /** Jobs come out of the in-memory queue in the order they went in. */
  ghost predicate Fifo(durable: bool, s: System) {
    durable || s.handed + s.books.queue == s.queued
  }

  ghost predicate Inv(durable: bool, s: System) {
    Core(durable, s) && OutcomesKept(s) && OutcomesEarned(s) && Fifo(durable, s)
  }

  /** How one step may change a job object. */
  ghost predicate Evolves(j: Job, k: Job) {
    && (Terminal(j.status) ==> k.status == j.status && k.result == j.result)
    && (j.status.Completed? || j.status.Failed? ==> k == j)
    && (k.status.Pending? ==> j.status.Pending?)
    && k.jobType == j.jobType && k.input == j.input
  }

  /** Nothing is lost from the store, and jobs only move forward. */
  ghost predicate Forward(b: Books, c: Books) {
    forall id :: id in b.store ==> id in c.store && Evolves(b.store[id], c.store[id])
  }

  lemma SubmitKnown(durable: bool, s: System, a: Action)
    requires a.Submit? && Core(durable, s) && Enabled(durable, s, a)
    ensures Known(Step(durable, s, a))
  {
  }

  lemma SubmitBooks(durable: bool, s: System, a: Action)
    requires a.Submit? && Core(durable, s) && Enabled(durable, s, a)
    ensures JobsOk(Step(durable, s, a).books) && Forward(s.books, Step(durable, s, a).books)
  {
  }

  lemma SubmitRuns(durable: bool, s: System, a: Action)
    requires a.Submit? && Core(durable, s) && Enabled(durable, s, a)
    ensures RanOnce(Step(durable, s, a)) && RefusedExactly(Step(durable, s, a))
  {
  }

  lemma SubmitAccounts(durable: bool, s: System, a: Action)
    requires a.Submit? && Core(durable, s) && Enabled(durable, s, a)
    ensures NoneForgotten(durable, Step(durable, s, a))
  {
    var s' := Step(durable, s, a);
    if !durable && a.newType in s.books.processors {
      forall id | id in s'.books.store && s'.books.store[id].status.Pending? ensures Accounted(s', id) {
        if id != a.id {
          assert Accounted(s, id);
        }
      }
    }
  }

  lemma SubmitKeeps(durable: bool, s: System, a: Action)
    requires a.Submit? && Core(durable, s) && Enabled(durable, s, a)
    ensures Core(durable, Step(durable, s, a)) && Forward(s.books, Step(durable, s, a).books)
  {
    SubmitKnown(durable, s, a);
    SubmitBooks(durable, s, a);
    SubmitRuns(durable, s, a);
    SubmitAccounts(durable, s, a);
  }

  lemma CancelBooks(durable: bool, s: System, a: Action)
    requires a.Cancel? && Core(durable, s) && Enabled(durable, s, a)
    ensures Known(Step(durable, s, a)) && JobsOk(Step(durable, s, a).books) && Forward(s.books, Step(durable, s, a).books)
  {
  }

  lemma CancelKeeps(durable: bool, s: System, a: Action)
    requires a.Cancel? && Core(durable, s) && Enabled(durable, s, a)
    ensures Core(durable, Step(durable, s, a)) && Forward(s.books, Step(durable, s, a).books)
  {
    CancelBooks(durable, s, a);
    var s' := Step(durable, s, a);
    forall id | id in s'.books.store && s'.books.store[id].status.Pending? && !durable ensures Accounted(s', id) {
      assert Accounted(s, id);
    }
  }

  lemma HandOverKeeps(durable: bool, s: System, a: Action)
    requires (a.Receive? || a.Deliver?) && Core(durable, s) && Enabled(durable, s, a)
    ensures Core(durable, Step(durable, s, a)) && Forward(s.books, Step(durable, s, a).books)
  {
    var s' := Step(durable, s, a);
    if a.Receive? {
      forall id | id in s.books.store && s.books.store[id].status.Pending? ensures Accounted(s', id) {
        assert Accounted(s, id);
        if id == s.books.queue[0] {
          assert s'.workers[a.w] == InHand(id);
        } else if id !in s.books.queue {
          var w :| 0 <= w < |s.workers| && s.workers[w] == InHand(id);
          assert s'.workers[w] == InHand(id);
        }
      }
    }
  }

  /** The worker either starts a pending job or finds nothing to do; a processor is always there. */
  lemma BeginCases(durable: bool, s: System, a: Action)
    requires a.Begin? && Core(durable, s) && Enabled(durable, s, a)
    ensures var x := s.workers[a.w].id;
      x in s.books.store && (CanBegin(s.books, x) || AfterBegin(s.books, x, a.now) == s.books)
  {
    var x := s.workers[a.w].id;
    assert JobOk(s.books, x, s.books.store[x]);
  }

  lemma BeginBooks(durable: bool, s: System, a: Action)
    requires a.Begin? && Core(durable, s) && Enabled(durable, s, a)
    ensures Known(Step(durable, s, a)) && JobsOk(Step(durable, s, a).books)
    ensures Forward(s.books, Step(durable, s, a).books)
  {
    BeginCases(durable, s, a);
    var x := s.workers[a.w].id;
    assert JobOk(s.books, x, s.books.store[x]);
  }

  lemma BeginRuns(durable: bool, s: System, a: Action)
    requires a.Begin? && Core(durable, s) && Enabled(durable, s, a)
    ensures RanOnce(Step(durable, s, a)) && RefusedExactly(Step(durable, s, a))
  {
    BeginCases(durable, s, a);
    BeginRanOnce(durable, s, a);
    var x := s.workers[a.w].id;
    assert CanBegin(s.books, x) ==> x !in s.refused;
  }

  lemma BeginRanOnce(durable: bool, s: System, a: Action)
    requires a.Begin? && Core(durable, s) && Enabled(durable, s, a)
    ensures RanOnce(Step(durable, s, a))
  {
    BeginCases(durable, s, a);
    var x := s.workers[a.w].id;
    assert CanBegin(s.books, x) ==> forall i :: 0 <= i < |s.ran| ==> s.ran[i] != x;
    assert CanBegin(s.books, x) ==> forall w :: 0 <= w < |s.workers| && s.workers[w].Processing? ==> s.workers[w].id != x;
  }

  lemma BeginAccounts(durable: bool, s: System, a: Action)
    requires a.Begin? && Core(durable, s) && Enabled(durable, s, a)
    ensures NoneForgotten(durable, Step(durable, s, a))
  {
    var s' := Step(durable, s, a);
    var x := s.workers[a.w].id;
    assert x in s.books.store && JobOk(s.books, x, s.books.store[x]);
    if !durable {
      forall id | id in s'.books.store && s'.books.store[id].status.Pending? ensures Accounted(s', id) {
        assert id != x && Accounted(s, id);
        if id !in s.books.queue {
          var w :| 0 <= w < |s.workers| && s.workers[w] == InHand(id);
          assert s'.workers[w] == InHand(id);
        }
      }
    }
  }

  lemma BeginKeeps(durable: bool, s: System, a: Action)
    requires a.Begin? && Core(durable, s) && Enabled(durable, s, a)
    ensures Core(durable, Step(durable, s, a)) && Forward(s.books, Step(durable, s, a).books)
  {
    BeginBooks(durable, s, a);
    BeginRuns(durable, s, a);
    BeginAccounts(durable, s, a);
  }

  lemma FinishBooks(durable: bool, s: System, a: Action)
    requires a.Finish? && Core(durable, s) && Enabled(durable, s, a)
    ensures Known(Step(durable, s, a)) && JobsOk(Step(durable, s, a).books)
    ensures Forward(s.books, Step(durable, s, a).books)
  {
  }

  lemma FinishRuns(durable: bool, s: System, a: Action)
    requires a.Finish? && Core(durable, s) && Enabled(durable, s, a)
    ensures RanOnce(Step(durable, s, a)) && RefusedExactly(Step(durable, s, a))
  {
  }

  lemma FinishAccounts(durable: bool, s: System, a: Action)
    requires a.Finish? && Core(durable, s) && Enabled(durable, s, a)
    ensures NoneForgotten(durable, Step(durable, s, a))
  {
    var s' := Step(durable, s, a);
    if !durable {
      forall id | id in s'.books.store && s'.books.store[id].status.Pending? ensures Accounted(s', id) {
        assert Accounted(s, id);
        if id !in s.books.queue {
          var w :| 0 <= w < |s.workers| && s.workers[w] == InHand(id);
          assert s'.workers[w] == InHand(id);
        }
      }
    }
  }

  lemma FinishKeeps(durable: bool, s: System, a: Action)
    requires a.Finish? && Core(durable, s) && Enabled(durable, s, a)
    ensures Core(durable, Step(durable, s, a)) && Forward(s.books, Step(durable, s, a).books)
  {
    FinishBooks(durable, s, a);
    FinishRuns(durable, s, a);
    FinishAccounts(durable, s, a);
  }

  lemma OtherKeeps(durable: bool, s: System, a: Action)
    requires (a.Register? || a.Cleanup?) && Core(durable, s) && Enabled(durable, s, a)
    ensures Core(durable, Step(durable, s, a)) && Forward(s.books, Step(durable, s, a).books)
  {
    var s' := Step(durable, s, a);
    forall id | id in s.books.store && s.books.store[id].status.Pending? && !durable ensures Accounted(s', id) {
      assert Accounted(s, id);
    }
  }

  lemma CoreKeeps(durable: bool, s: System, a: Action)
    requires Inv(durable, s) && Enabled(durable, s, a)
    ensures Core(durable, Step(durable, s, a)) && Forward(s.books, Step(durable, s, a).books)
  {
    match a
    case Submit(_, _, _, _) => SubmitKeeps(durable, s, a);
    case Cancel(_, _) => CancelKeeps(durable, s, a);
    case Receive(_) => HandOverKeeps(durable, s, a);
    case Deliver(_, _) => HandOverKeeps(durable, s, a);
    case Begin(_, _) => BeginKeeps(durable, s, a);
    case Finish(_, _, _) => FinishKeeps(durable, s, a);
    case _ => OtherKeeps(durable, s, a);
  }

  lemma SubmitOutcomes(durable: bool, s: System, a: Action)
    requires Inv(durable, s) && Enabled(durable, s, a) && a.Submit?
    ensures OutcomesKept(Step(durable, s, a)) && OutcomesEarned(Step(durable, s, a))
  {
    assert a.id !in s.finished;
  }

  lemma BeginOutcomes(durable: bool, s: System, a: Action)
    requires Inv(durable, s) && Enabled(durable, s, a) && a.Begin?
    ensures OutcomesKept(Step(durable, s, a)) && OutcomesEarned(Step(durable, s, a))
  {
    BeginCases(durable, s, a);
    var x := s.workers[a.w].id;
    assert CanBegin(s.books, x) ==> x !in s.finished;
  }

  lemma FinishSettles(durable: bool, s: System, a: Action)
    requires Inv(durable, s) && Enabled(durable, s, a) && a.Finish?
    ensures var x := s.workers[a.w].id;
      x in s.books.store && x !in s.finished && Settled(Step(durable, s, a).books.store[x], Ended(a.outcome, a.now))
  {
    var x := s.workers[a.w].id;
    assert s.books.store[x].status.Running? || s.books.store[x].status.Cancelled?;
  }

  lemma FinishOutcomes(durable: bool, s: System, a: Action)
    requires Inv(durable, s) && Enabled(durable, s, a) && a.Finish?
    ensures OutcomesKept(Step(durable, s, a)) && OutcomesEarned(Step(durable, s, a))
  {
    FinishSettles(durable, s, a);
  }

  lemma OtherOutcomes(durable: bool, s: System, a: Action)
    requires Inv(durable, s) && Enabled(durable, s, a) && !a.Submit? && !a.Begin? && !a.Finish?
    ensures OutcomesKept(Step(durable, s, a)) && OutcomesEarned(Step(durable, s, a))
  {
  }

  lemma FifoKeeps(durable: bool, s: System, a: Action)
    requires Inv(durable, s) && Enabled(durable, s, a)
    ensures Fifo(durable, Step(durable, s, a))
  {
  }

  lemma StepKeeps(durable: bool, s: System, a: Action)
    requires Inv(durable, s) && Enabled(durable, s, a)
    ensures Inv(durable, Step(durable, s, a)) && Forward(s.books, Step(durable, s, a).books)
  {
    CoreKeeps(durable, s, a);
    FifoKeeps(durable, s, a);
    match a
    case Submit(_, _, _, _) => SubmitOutcomes(durable, s, a);
    case Begin(_, _) => BeginOutcomes(durable, s, a);
    case Finish(_, _, _) => FinishOutcomes(durable, s, a);
    case _ => OtherOutcomes(durable, s, a);
  }

  /** Every reachable state is good, and along the way terminal jobs never change
      status or result: a cancelled job stays cancelled and never gains a result. */
  lemma {:induction false} RunKeeps(durable: bool, s: System, acts: seq<Action>)
    requires Inv(durable, s) && CanRun(durable, s, acts)
    ensures Inv(durable, Run(durable, s, acts)) && Forward(s.books, Run(durable, s, acts).books)
    decreases |acts|
  {
    if acts != [] {
      var t := Step(durable, s, acts[0]);
      StepKeeps(durable, s, acts[0]);
      RunKeeps(durable, t, acts[1..]);
      var u := Run(durable, t, acts[1..]);
      forall id | id in s.books.store ensures id in u.books.store && Evolves(s.books.store[id], u.books.store[id]) {
        assert Evolves(s.books.store[id], t.books.store[id]) && Evolves(t.books.store[id], u.books.store[id]);
      }
    }
  }

  lemma StartInv(durable: bool, n: nat)
    ensures Inv(durable, Start(n))
  {
  }

  lemma ReachableInv(durable: bool, n: nat, acts: seq<Action>)
    requires CanRun(durable, Start(n), acts)
    ensures Inv(durable, Run(durable, Start(n), acts))
  {
    StartInv(durable, n);
    RunKeeps(durable, Start(n), acts);
  }

  /** From the empty manager: each id is processed at most once even under redelivery,
      results belong to completed or failed jobs only, and no pending job is forgotten. */
  lemma ReachableStates(durable: bool, n: nat, acts: seq<Action>)
    requires CanRun(durable, Start(n), acts)
    ensures var s := Run(durable, Start(n), acts);
      && NoDup(s.ran)
      && (forall id :: id in s.books.store && !Terminal(s.books.store[id].status) ==> id in s.books.live)
      && (forall id :: id in s.books.store && s.books.store[id].status.Cancelled? ==> s.books.store[id].result.None?)
      && (!durable ==> forall id :: id in s.books.store && s.books.store[id].status.Pending? ==> Accounted(s, id))
  {
    ReachableInv(durable, n, acts);
    var s := Run(durable, Start(n), acts);
    forall id | id in s.books.store ensures JobOk(s.books, id, s.books.store[id]) {
    }
  }

  /** In every reachable state a job whose processor has returned, and that is not cancelled, shows exactly
      that outcome; and only such a job is completed. */
  lemma OutcomeIsShown(durable: bool, n: nat, acts: seq<Action>, id: string)
    requires CanRun(durable, Start(n), acts) && id in Run(durable, Start(n), acts).books.store
    ensures var s := Run(durable, Start(n), acts);
      var j := s.books.store[id];
      && (id in s.finished && !j.status.Cancelled? ==>
           && (j.status.Completed? <==> s.finished[id].outcome.error.None?)
           && (j.status.Failed? <==> s.finished[id].outcome.error.Some?)
           && j.result == s.finished[id].outcome.result && j.completedAt == Some(s.finished[id].at)
           && (j.status.Completed? ==> j.progress == 100)
           && (j.status.Failed? ==> Some(j.error) == s.finished[id].outcome.error))
      && (j.status.Completed? ==> id in s.finished)
      && (j.status.Failed? ==> id in s.finished || id in s.refused)
  {
    ReachableInv(durable, n, acts);
    OutcomeIn(durable, Run(durable, Start(n), acts), id);
  }

  lemma OutcomeIn(durable: bool, s: System, id: string)
    requires Inv(durable, s) && id in s.books.store
    ensures id in s.finished ==> Settled(s.books.store[id], s.finished[id])
    ensures s.books.store[id].status.Completed? ==> id in s.finished
    ensures s.books.store[id].status.Failed? ==> id in s.finished || id in s.refused
  {
  }

  /** The in-memory queue hands jobs out in the order of their submission. */
  lemma HandedInOrder(n: nat, acts: seq<Action>)
    requires CanRun(false, Start(n), acts)
    ensures var s := Run(false, Start(n), acts); s.handed <= s.queued && s.handed + s.books.queue == s.queued
  {
    ReachableInv(false, n, acts);
  }

  /** Any job that has not ended can be cancelled, also while it runs. */
  lemma UnfinishedCanBeCancelled(durable: bool, n: nat, acts: seq<Action>, id: string, now: int)
    requires CanRun(durable, Start(n), acts)
    requires var b := Run(durable, Start(n), acts).books; id in b.store && !Terminal(b.store[id].status)
    ensures var b := Run(durable, Start(n), acts).books;
      var c := AfterCancel(b, id, now);
      CanCancel(b, id) && id in c.store && c.store[id].status.Cancelled? && c.store[id].completedAt == Some(now)
  {
    ReachableInv(durable, n, acts);
    var b := Run(durable, Start(n), acts).books;
    assert JobOk(b, id, b.store[id]);
  }

  /** The missing-processor branch of `processJob` is never taken: a listed pending job starts. */
  lemma ProcessorAlwaysFound(durable: bool, n: nat, acts: seq<Action>, id: string, now: int)
    requires CanRun(durable, Start(n), acts)
    requires var b := Run(durable, Start(n), acts).books; id in b.live && id in b.store && b.store[id].status.Pending?
    ensures var b := Run(durable, Start(n), acts).books;
      var c := AfterBegin(b, id, now);
      CanBegin(b, id) && id in c.store && c.store[id] == b.store[id].(status := Running, startedAt := Some(now))
  {
    ReachableInv(durable, n, acts);
    var b := Run(durable, Start(n), acts).books;
    assert JobOk(b, id, b.store[id]);
  }

  // ---------- what cleanup can remove ----------

  /** Still listed, and stranded by its own submission. */
  ghost predicate Rejected(b: Books, id: string) {
    id in b.live && id in b.store && Stranded(b.store[id])
  }

  /** A new job is listed with the type and input it was submitted with, and stranded exactly when the queue is full, or the durable queue did not take it. */
  lemma SubmitRejects(b: Books, id: string, jobType: string, input: string, durable: bool, sent: bool)
    requires id !in b.store
    ensures Rejected(Submitted(b, id, jobType, input, durable, sent), id) <==> Refuses(durable, b, jobType, sent)
    ensures var c := Submitted(b, id, jobType, input, durable, sent);
      jobType in b.processors ==> id in c.live && id in c.store && c.store[id].jobType == jobType && c.store[id].input == input
  {
  }

  ghost predicate Removable(b: Books, id: string) {
    exists cutoff :: id !in AfterCleanup(b, cutoff).live
  }

  /** A cleanup removes exactly the terminal jobs completed before its cutoff, and changes no job. */
  lemma RemovedByIff(b: Books, id: string, cutoff: int)
    requires id in b.live && id in b.store
    ensures AfterCleanup(b, cutoff).store == b.store
    ensures id !in AfterCleanup(b, cutoff).live <==>
      (b.store[id].status.Completed? || b.store[id].status.Failed? || b.store[id].status.Cancelled?) &&
      b.store[id].completedAt.Some? && b.store[id].completedAt.value < cutoff
  {
  }

  lemma RemovableIffStamped(b: Books, id: string)
    requires id in b.live && id in b.store
    ensures Removable(b, id) <==> Terminal(b.store[id].status) && b.store[id].completedAt.Some?
  {
    var j := b.store[id];
    if Terminal(j.status) && j.completedAt.Some? {
      assert Expired(j, j.completedAt.value + 1);
      assert id !in AfterCleanup(b, j.completedAt.value + 1).live;
    }
  }

  /** In every reachable state some cleanup would remove a listed terminal job if and only if its
      submission had not been refused; refused jobs were never processed. */
  lemma CleanupRemovesIff(durable: bool, n: nat, acts: seq<Action>, id: string)
    requires CanRun(durable, Start(n), acts)
    requires var b := Run(durable, Start(n), acts).books; id in b.live && id in b.store && Terminal(b.store[id].status)
    ensures var s := Run(durable, Start(n), acts);
      && (Removable(s.books, id) <==> id !in s.refused)
      && (id in s.refused ==> id !in s.ran && s.books.store[id].status.Failed?)
  {
    ReachableInv(durable, n, acts);
    CleanupIn(durable, Run(durable, Start(n), acts), id);
  }

  lemma CleanupIn(durable: bool, s: System, id: string)
    requires Inv(durable, s) && id in s.books.live && id in s.books.store && Terminal(s.books.store[id].status)
    ensures Removable(s.books, id) <==> id !in s.refused
    ensures id in s.refused ==> id !in s.ran && s.books.store[id].status.Failed?
  {
    RemovableIffStamped(s.books, id);
    assert JobOk(s.books, id, s.books.store[id]);
  }

  /** No sequence of later operations, cleanups included, removes a stranded job. */
  lemma {:induction false} RejectedStaysForever(durable: bool, s: System, acts: seq<Action>, id: string)
    requires Inv(durable, s) && CanRun(durable, s, acts) && Rejected(s.books, id)
    ensures Rejected(Run(durable, s, acts).books, id)
    decreases |acts|
  {
    if acts != [] {
      var t := Step(durable, s, acts[0]);
      StepKeeps(durable, s, acts[0]);
      assert Evolves(s.books.store[id], t.books.store[id]);
      assert id in t.books.live;
      RejectedStaysForever(durable, t, acts[1..], id);
    }
  }
}
