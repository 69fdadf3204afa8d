/** The asynchronous job manager (internal/jobs/manager.go). Each critical section
    is one method; `processJob` is two of them with the processor running in between. */
module Jobs {
  import opened RulePacks

  datatype Status = Pending | Running | Completed | Failed | Cancelled

  predicate Terminal(s: Status) {
    s.Completed? || s.Failed? || s.Cancelled?
  }

  datatype Job = Job(
    jobType: string,
    status: Status,
    input: string,
    result: Option<string>,
    error: string,
    startedAt: Option<int>,
    completedAt: Option<int>,
    progress: int)

  const QUEUE_CAPACITY := 1000

  /** `store` is every job object ever allocated, by id; `live` the ids still in the
      `jobs` map. A worker keeps its pointer after cleanup dropped the map entry. */
  datatype Books = Books(store: map<string, Job>, live: set<string>, queue: seq<string>, processors: set<string>)

  // ---------- what each critical section does ----------

  function Registered(b: Books, jobType: string): Books {
    b.(processors := b.processors + {jobType})
  }

  /** The new job is pending when it could be queued and failed otherwise. */
  function Submitted(b: Books, id: string, jobType: string, input: string, durable: bool, sent: bool): Books {
    if jobType !in b.processors then b
    else
      var job := Job(jobType, Pending, input, None, "", None, None, 0);
      if durable then
        b.(store := b.store[id := if sent then job else job.(status := Failed, error := "enqueue failed")],
           live := b.live + {id})
      else if |b.queue| < QUEUE_CAPACITY then
        b.(store := b.store[id := job], live := b.live + {id}, queue := b.queue + [id])
      else
        b.(store := b.store[id := job.(status := Failed, error := "job queue is full")], live := b.live + {id})
  }

  predicate CanCancel(b: Books, id: string) {
    id in b.live && id in b.store && !b.store[id].status.Completed? && !b.store[id].status.Failed?
  }

  function AfterCancel(b: Books, id: string, now: int): Books {
    if CanCancel(b, id) then
      b.(store := b.store[id := b.store[id].(status := Cancelled, completedAt := Some(now), error := "cancelled by user")])
    else b
  }

  predicate CanBegin(b: Books, id: string) {
    id in b.live && id in b.store && b.store[id].status.Pending? && b.store[id].jobType in b.processors
  }

  /** First critical section of `processJob`. */
  function AfterBegin(b: Books, id: string, now: int): Books {
    if CanBegin(b, id) then
      b.(store := b.store[id := b.store[id].(status := Running, startedAt := Some(now))])
    else if id in b.live && id in b.store && b.store[id].status.Pending? then
      b.(store := b.store[id := b.store[id].(status := Failed, error := "no processor", completedAt := Some(now))])
    else b
  }

  datatype Outcome = Outcome(result: Option<string>, progress: int, error: Option<string>)

  /** Second critical section of `processJob`, through the pointer it kept. */
  function AfterFinish(b: Books, id: string, o: Outcome, now: int): Books {
    if id !in b.store || b.store[id].status.Cancelled? then b
    else
      var done := b.store[id].(result := o.result, progress := o.progress, completedAt := Some(now));
      b.(store := b.store[id := if o.error.Some? then done.(status := Failed, error := o.error.value)
                                else done.(status := Completed, progress := 100)])
  }

  predicate Expired(j: Job, cutoff: int) {
    Terminal(j.status) && j.completedAt.Some? && j.completedAt.value < cutoff
  }

  function AfterCleanup(b: Books, cutoff: int): Books {
    b.(live := set id | id in b.live && !(id in b.store && Expired(b.store[id], cutoff)))
  }

  // ---------- the manager object ----------

  class Manager {
    var store: map<string, Job>
    var jobs: set<string>
    var queue: seq<string>
    var processors: set<string>
    const durable: bool

    constructor (durable: bool)
      ensures State() == Books(map[], {}, [], {}) && this.durable == durable
    {
      store, jobs, queue, processors := map[], {}, [], {};
      this.durable := durable;
    }

    ghost function State(): Books reads this {
      Books(store, jobs, queue, processors)
    }

    method RegisterProcessor(jobType: string)
      modifies this
      ensures State() == Registered(old(State()), jobType)
    {
      processors := processors + {jobType};
    }

    /** `id` is the freshly drawn UUID and `sent` whether the durable queue took the message. */
    method Submit(id: string, jobType: string, input: string, sent: bool) returns (ok: bool)
      modifies this
      ensures State() == Submitted(old(State()), id, jobType, input, durable, sent)
      ensures ok <==> jobType in old(processors) && id in store && store[id].status.Pending?
    {
      if jobType !in processors {
        return false;
      }
      var job := Job(jobType, Pending, input, None, "", None, None, 0);
      store, jobs := store[id := job], jobs + {id};
      if durable {
        if !sent {
          store := store[id := job.(status := Failed, error := "enqueue failed")];
        }
        assert State().store == Submitted(old(State()), id, jobType, input, durable, sent).store;
        return sent;
      }
      if |queue| < QUEUE_CAPACITY {
        queue := queue + [id];
        return true;
      }
      store := store[id := job.(status := Failed, error := "job queue is full")];
      assert State().store == Submitted(old(State()), id, jobType, input, durable, sent).store;
      return false;
    }

    method Cancel(id: string, now: int) returns (ok: bool)
      modifies this
      ensures State() == AfterCancel(old(State()), id, now)
      ensures ok <==> CanCancel(old(State()), id)
    {
      if id !in jobs || id !in store {
        return false;
      }
      var job := store[id];
      if job.status.Completed? || job.status.Failed? {
        return false;
      }
      job := job.(status := Cancelled);
      job := job.(completedAt := Some(now));
      job := job.(error := "cancelled by user");
      store := store[id := job];
      return true;
    }

    method Begin(id: string, now: int) returns (work: Option<Job>)
      modifies this
      ensures State() == AfterBegin(old(State()), id, now)
      ensures work.Some? <==> CanBegin(old(State()), id)
      ensures work.Some? ==> id in store && work.value == store[id] && work.value.status.Running?
    {
      if id !in jobs || id !in store {
        return None;
      }
      var job := store[id];
      if !job.status.Pending? {
        return None;
      }
      if job.jobType !in processors {
        job := job.(status := Failed, error := "no processor");
        store := store[id := job.(completedAt := Some(now))];
        return None;
      }
      job := job.(status := Running);
      job := job.(startedAt := Some(now));
      store := store[id := job];
      return Some(job);
    }

    method FinishJob(id: string, o: Outcome, now: int)
      requires id in store
      modifies this
      ensures State() == AfterFinish(old(State()), id, o, now)
    {
      var job := store[id];
      if job.status.Cancelled? {
        return;
      }
      job := job.(result := o.result);
      job := job.(progress := o.progress);
      job := job.(completedAt := Some(now));
      if o.error.Some? {
        job := job.(status := Failed);
        job := job.(error := o.error.value);
      } else {
        job := job.(status := Completed);
        job := job.(progress := 100);
      }
      store := store[id := job];
    }

    method CleanupCompleted(cutoff: int) returns (removed: nat)
      modifies this
      ensures State() == AfterCleanup(old(State()), cutoff)
      ensures removed == |old(jobs)| - |jobs|
    {
      removed := 0;
      var left := jobs;
      while left != {}
        invariant left <= old(jobs) && store == old(store) && queue == old(queue) && processors == old(processors)
        invariant jobs == set id | id in old(jobs) && (id in left || !(id in store && Expired(store[id], cutoff)))
        invariant removed == |old(jobs)| - |jobs|
      {
        var id :| id in left;
        assert id in jobs;
        left := left - {id};
        if id in store && Expired(store[id], cutoff) {
          jobs := jobs - {id};
          removed := removed + 1;
        }
      }
    }
  }
}
