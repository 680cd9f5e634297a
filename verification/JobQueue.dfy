/** The job queue table shared by all workers: submit, pop, cancel and the finish calls, each
    one transaction. */
module JobQueue {
  import opened Wrappers

  datatype State = Pending | Running | Finished

  datatype FinishStatus = Cancelled | Succeeded | Failed

  /** A row of queued_jobs; its id is its position in the table. */
  datatype Job = Job(
    queueName: string,
    state: State,
    workerId: Option<string>,
    retryMax: int,
    retryCount: int,
    finishStatus: Option<FinishStatus>,
    finishedAt: Option<int>,
    startedAt: Option<int>,
    finishMessage: Option<string>)
  {
    /** QueuedJob#validate finds nothing wrong. */
    predicate Validates() {
      match state
      case Finished => finishStatus.Some? && finishedAt.Some?
      case Pending => workerId.None?
      case Running => workerId.Some?
    }

    function FinishEntry(status: FinishStatus, now: int): Job {
      this.(state := Finished, finishedAt := Some(now), finishStatus := Some(status))
    }
  }

  datatype QueueError = UnknownJob | AlreadyTerminated | ValidationFailed

  // ----- the calls as functions of the table -----

  function NewJob(queueName: string, retryMax: int): Job {
    Job(queueName, Pending, None, retryMax, 0, None, None, None, None)
  }

  predicate Waiting(job: Job, queueName: string) {
    job.queueName == queueName && job.state == Pending && job.workerId.None?
  }

  /** The first row at or after `from` of the query ordered by id. */
  function FirstWaiting(jobs: seq<Job>, queueName: string, from: nat): (r: Option<nat>)
    requires from <= |jobs|
    ensures r.Some? ==> from <= r.value < |jobs| && Waiting(jobs[r.value], queueName)
    ensures forall i :: from <= i < (if r.Some? then r.value else |jobs|) ==> !Waiting(jobs[i], queueName)
    decreases |jobs| - from
  {
    if from == |jobs| then None
    else if Waiting(jobs[from], queueName) then Some(from)
    else FirstWaiting(jobs, queueName, from + 1)
  }

  function StartJob(job: Job, worker: Option<string>, retryMaxIfZero: int, now: int): Job {
    var first := job.startedAt.None?;
    job.(workerId := worker, state := Running,
         startedAt := if first then Some(now) else job.startedAt,
         retryMax := if first && job.retryMax == 0 && retryMaxIfZero > 0 then retryMaxIfZero else job.retryMax,
         retryCount := job.retryCount + 1)
  }

  function FailJob(job: Job, now: int, reason: string): Job {
    var next := if job.retryMax > job.retryCount then job.(state := Pending, workerId := None)
                else job.FinishEntry(Failed, now);
    next.(finishMessage := Some(reason))
  }

  function SucceedJob(job: Job, now: int, message: Option<string>): Job {
    var done := job.FinishEntry(Succeeded, now);
    if message.Some? then done.(finishMessage := message) else done
  }

  datatype Call =
    | Submit(queueName: string, retryMax: int)
    | Pop(queue: string, worker: Option<string>, retryMaxIfZero: int, now: int)
    | Cancel(id: nat, now: int)
    | FinishSuccess(id: nat, now: int, message: Option<string>)
    | FinishFail(id: nat, now: int, reason: string)

  /** A finish call looks the job up and refuses a finished one. */
  function Rewrite(jobs: seq<Job>, id: nat, change: Job -> Job): Result<Option<(nat, Job)>, QueueError> {
    if id >= |jobs| then Err(UnknownJob)
    else if jobs[id].state == Finished then Err(AlreadyTerminated)
    else Ok(Some((id, change(jobs[id]))))
  }

  /** The row a call writes: its id and new contents, or nothing for an empty pop. */
  function Written(jobs: seq<Job>, call: Call): Result<Option<(nat, Job)>, QueueError> {
    match call
    case Submit(queueName, retryMax) => Ok(Some((|jobs|, NewJob(queueName, retryMax))))
    case Pop(queueName, worker, retryMaxIfZero, now) =>
      var target := FirstWaiting(jobs, queueName, 0);
      if target.None? then Ok(None)
      else
        var job := StartJob(jobs[target.value], worker, retryMaxIfZero, now);
        if job.Validates() then Ok(Some((target.value, job))) else Err(ValidationFailed)
    case Cancel(id, now) => Rewrite(jobs, id, (job: Job) => job.FinishEntry(Cancelled, now))
    case FinishSuccess(id, now, message) => Rewrite(jobs, id, (job: Job) => SucceedJob(job, now, message))
    case FinishFail(id, now, reason) => Rewrite(jobs, id, (job: Job) => FailJob(job, now, reason))
  }

  function Raised(w: Result<Option<(nat, Job)>, QueueError>): Result<(), QueueError> {
    if w.Ok? then Ok(()) else Err(w.error)
  }

  /** The table after a call; a call that raises is rolled back. */
  function Step(jobs: seq<Job>, call: Call): (next: seq<Job>)
    ensures |jobs| <= |next|
  {
    match Written(jobs, call)
    case Ok(Some((id, job))) => if id < |jobs| then jobs[id := job] else jobs + [job]
    case _ => jobs
  }

  /** The job handed to a worker by this call. */
  function HandedOut(jobs: seq<Job>, call: Call): Option<nat> {
    if call.Pop? && Written(jobs, call).Ok? && Written(jobs, call).value.Some?
    then Some(Written(jobs, call).value.value.0) else None
  }

  // ----- the table object -----

  class QueuedJobs {
    var jobs: seq<Job>

    constructor ()
      ensures jobs == []
    {
      jobs := [];
    }

    method Submit(queueName: string, retryMax: int) returns (id: nat)
      modifies this
      ensures jobs == Step(old(jobs), Call.Submit(queueName, retryMax)) && id == |old(jobs)|
    {
      id := |jobs|;
      jobs := jobs + [NewJob(queueName, retryMax)];
    }

    method Pop(queueName: string, worker: Option<string>, retryMaxIfZero: int, now: int)
      returns (r: Result<Option<nat>, QueueError>)
      modifies this
      ensures var call := Call.Pop(queueName, worker, retryMaxIfZero, now);
              && jobs == Step(old(jobs), call)
              && (if r.Ok? then r.value == HandedOut(old(jobs), call) && Written(old(jobs), call).Ok?
                  else Raised(Written(old(jobs), call)) == Err(r.error))
    {
      var target := FirstWaiting(jobs, queueName, 0);
      if target.None? {
        return Ok(None);
      }
      var job := jobs[target.value];
      job := job.(workerId := worker, state := Running);
      if job.startedAt.None? {
        job := job.(startedAt := Some(now));
        if job.retryMax == 0 && retryMaxIfZero > 0 {
          job := job.(retryMax := retryMaxIfZero);
        }
      }
      job := job.(retryCount := job.retryCount + 1);
      if !job.Validates() {
        return Err(ValidationFailed);
      }
      jobs := jobs[target.value := job];
      r := Ok(target);
    }

    method Cancel(id: nat, now: int) returns (r: Result<(), QueueError>)
      modifies this
      ensures jobs == Step(old(jobs), Call.Cancel(id, now))
      ensures r == Raised(Written(old(jobs), Call.Cancel(id, now)))
    {
      r := FinishAs(id, Cancelled, now);
    }

    method FinishSuccess(id: nat, now: int, message: Option<string>) returns (r: Result<(), QueueError>)
      modifies this
      ensures jobs == Step(old(jobs), Call.FinishSuccess(id, now, message))
      ensures r == Raised(Written(old(jobs), Call.FinishSuccess(id, now, message)))
    {
      r := FinishAs(id, Succeeded, now);
      if r.Ok? && message.Some? {
        jobs := jobs[id := jobs[id].(finishMessage := message)];
      }
    }

    method FinishAs(id: nat, status: FinishStatus, now: int) returns (r: Result<(), QueueError>)
      modifies this
      ensures r == if id >= |old(jobs)| then Err(UnknownJob)
                   else if old(jobs)[id].state == Finished then Err(AlreadyTerminated) else Ok(())
      ensures jobs == if r.Ok? then old(jobs)[id := old(jobs)[id].FinishEntry(status, now)] else old(jobs)
    {
      if id >= |jobs| {
        return Err(UnknownJob);
      }
      if jobs[id].state == Finished {
        return Err(AlreadyTerminated);
      }
      jobs := jobs[id := jobs[id].FinishEntry(status, now)];
      r := Ok(());
    }

    method FinishFail(id: nat, now: int, reason: string) returns (r: Result<(), QueueError>)
      modifies this
      ensures jobs == Step(old(jobs), Call.FinishFail(id, now, reason))
      ensures r == Raised(Written(old(jobs), Call.FinishFail(id, now, reason)))
    {
      if id >= |jobs| {
        return Err(UnknownJob);
      }
      var job := jobs[id];
      if job.state == Finished {
        return Err(AlreadyTerminated);
      }
      if job.retryMax > job.retryCount {
        job := job.(state := Pending, workerId := None);
      } else {
        job := job.FinishEntry(Failed, now);
      }
      job := job.(finishMessage := Some(reason));
      jobs := jobs[id := job];
      r := Ok(());
    }
  }

  /** The row a successful call leaves, column by column; no other row changes. */
  lemma CallEffects(jobs: seq<Job>, call: Call, id: nat)
    requires Written(jobs, call).Ok? && Written(jobs, call).value.Some? && Written(jobs, call).value.value.0 == id
    ensures var r := Step(jobs, call);
            && (forall i :: 0 <= i < |jobs| && i != id ==> r[i] == jobs[i])
            && (call.Submit? ==>
                  && id == |jobs| && |r| == |jobs| + 1
                  && r[id] == Job(call.queueName, Pending, None, call.retryMax, 0, None, None, None, None))
            && (!call.Submit? ==> id < |jobs| && |r| == |jobs|)
            && (call.Pop? ==>
                  r[id] == jobs[id].(
                    state := Running, workerId := call.worker, retryCount := jobs[id].retryCount + 1,
                    startedAt := if jobs[id].startedAt.None? then Some(call.now) else jobs[id].startedAt,
                    retryMax := if jobs[id].startedAt.None? && jobs[id].retryMax == 0 && call.retryMaxIfZero > 0
                                then call.retryMaxIfZero else jobs[id].retryMax))
            && (call.Cancel? ==>
                  id == call.id && r[id] == jobs[id].(
                    state := Finished, finishStatus := Some(Cancelled), finishedAt := Some(call.now)))
            && (call.FinishSuccess? ==>
                  id == call.id && r[id] == jobs[id].(
                    state := Finished, finishStatus := Some(Succeeded), finishedAt := Some(call.now),
                    finishMessage := if call.message.Some? then call.message else jobs[id].finishMessage))
            && (call.FinishFail? && jobs[id].retryMax > jobs[id].retryCount ==>
                  id == call.id && r[id] == jobs[id].(
                    state := Pending, workerId := None, finishMessage := Some(call.reason)))
            && (call.FinishFail? && jobs[id].retryMax <= jobs[id].retryCount ==>
                  id == call.id && r[id] == jobs[id].(
                    state := Finished, finishStatus := Some(Failed), finishedAt := Some(call.now),
                    finishMessage := Some(call.reason)))
  {
  }

  /** A pop is refused exactly without a worker while a job waits, the other calls on a job
      exactly when it is unknown or finished; a refusal changes nothing. */
  lemma {:induction false} RefusedExactly(jobs: seq<Job>, call: Call)
    ensures call.Submit? ==> Written(jobs, call).Ok?
    ensures call.Pop? ==>
              (Written(jobs, call).Err? <==>
                 && call.worker.None?
                 && exists i :: 0 <= i < |jobs| && jobs[i].queueName == call.queue && jobs[i].state == Pending
                                && jobs[i].workerId.None?)
    ensures call.Cancel? || call.FinishSuccess? || call.FinishFail? ==>
              && (Written(jobs, call) == Err(UnknownJob) <==> call.id >= |jobs|)
              && (Written(jobs, call) == Err(AlreadyTerminated) <==> call.id < |jobs| && jobs[call.id].state == Finished)
              && (Written(jobs, call).Ok? <==> call.id < |jobs| && jobs[call.id].state != Finished)
              && (Written(jobs, call).Ok? ==> Written(jobs, call).value.Some?)
    ensures Written(jobs, call).Err? ==> Step(jobs, call) == jobs
  {
    if call.Pop? && FirstWaiting(jobs, call.queue, 0).None? {
      assert forall i :: 0 <= i < |jobs| ==> !Waiting(jobs[i], call.queue);
    }
  }

  /** A job that fails with attempts left is the very next one its queue hands out, ahead of
      everything submitted later; without one left it is finished. */
  lemma {:induction false} FailedJobIsNext(jobs: seq<Job>, pop: Call, fail: Call, id: nat)
    requires HandedOut(jobs, pop) == Some(id) && fail.FinishFail? && fail.id == id
    ensures var started := Step(jobs, pop);
            var r := Step(started, fail);
            && Written(started, fail).Ok?
            && FirstWaiting(started, pop.queue, 0) != Some(id)
            && (FirstWaiting(r, pop.queue, 0) == Some(id) <==> started[id].retryMax > started[id].retryCount)
            && (started[id].retryMax <= started[id].retryCount ==>
                  r[id].state == Finished && r[id].finishStatus == Some(Failed))
            && (forall i :: 0 <= i < |jobs| && i != id ==> r[i] == jobs[i])
  {
    var started := Step(jobs, pop);
    CallEffects(jobs, pop, id);
    FirstWaitingIs(started, pop.queue, id);
    RefusedExactly(started, fail);
    CallEffects(started, fail, id);
    FirstWaitingIs(Step(started, fail), pop.queue, id);
  }

  lemma FirstWaitingIs(jobs: seq<Job>, queueName: string, id: nat)
    requires id < |jobs| && forall i :: 0 <= i < id ==> !Waiting(jobs[i], queueName)
    ensures FirstWaiting(jobs, queueName, 0) == Some(id) <==> Waiting(jobs[id], queueName)
  {
  }

  // ----- runs: any interleaving of calls by any workers -----

  function After(calls: seq<Call>): seq<Job> {
    if calls == [] then []
    else Step(After(calls[..|calls| - 1]), calls[|calls| - 1])
  }

  function Max(a: int, b: int): int {
    if a < b then b else a
  }

  ghost predicate Consistent(job: Job) {
    && (job.state == Pending ==> job.workerId.None?)
    && (job.state == Running ==> job.workerId.Some?)
    && (job.state == Finished <==> job.finishStatus.Some?)
    && (job.state == Finished <==> job.finishedAt.Some?)
    && (job.startedAt.Some? <==> job.retryCount > 0)
    && 0 <= job.retryCount <= Max(1, job.retryMax)
    && (job.state == Running ==> job.retryCount > 0)
    && (job.state == Pending ==> job.retryCount == 0 || job.retryCount < job.retryMax)
  }

  ghost predicate AllConsistent(jobs: seq<Job>) {
    forall i :: 0 <= i < |jobs| ==> Consistent(jobs[i])
  }

  /** What no call ever changes in a row: a finished row at all, a start time once set, and the
      retry limit of a started job. */
  predicate Settled(before: Job, after: Job) {
    && (before.state == Finished ==> after == before)
    && (before.startedAt.Some? ==> after.startedAt == before.startedAt && after.retryMax == before.retryMax)
    && after.queueName == before.queueName && before.retryCount <= after.retryCount
  }

  lemma WrittenIsConsistent(jobs: seq<Job>, call: Call)
    requires AllConsistent(jobs) && Written(jobs, call).Ok? && Written(jobs, call).value.Some?
    ensures var (id, job) := Written(jobs, call).value.value;
            id <= |jobs| && Consistent(job) && (id < |jobs| ==> Settled(jobs[id], job))
  {
    var id := Written(jobs, call).value.value.0;
    if id < |jobs| {
      assert Consistent(jobs[id]);
    }
  }

  lemma StepIsConsistent(jobs: seq<Job>, call: Call)
    requires AllConsistent(jobs)
    ensures AllConsistent(Step(jobs, call))
    ensures forall i :: 0 <= i < |jobs| ==> Settled(jobs[i], Step(jobs, call)[i])
  {
    if Written(jobs, call).Ok? && Written(jobs, call).value.Some? {
      WrittenIsConsistent(jobs, call);
    }
  }

  /** Bookkeeping columns agree with the state, and attempts are bounded, in every run. */
  lemma {:induction false} ReachableIsConsistent(calls: seq<Call>)
    ensures AllConsistent(After(calls))
  {
    if calls != [] {
      ReachableIsConsistent(calls[..|calls| - 1]);
      StepIsConsistent(After(calls[..|calls| - 1]), calls[|calls| - 1]);
    }
  }

  // ----- total attempts -----

  function Attempts(jobs: seq<Job>): int {
    if jobs == [] then 0 else Attempts(jobs[..|jobs| - 1]) + jobs[|jobs| - 1].retryCount
  }

  function Allowance(jobs: seq<Job>): int {
    if jobs == [] then 0 else Allowance(jobs[..|jobs| - 1]) + Max(1, jobs[|jobs| - 1].retryMax)
  }

  function PopCount(calls: seq<Call>): nat {
    if calls == [] then 0
    else
      var init := calls[..|calls| - 1];
      PopCount(init) + if HandedOut(After(init), calls[|calls| - 1]).Some? then 1 else 0
  }

  lemma {:induction false} AttemptsUpdate(jobs: seq<Job>, id: nat, job: Job)
    requires id < |jobs|
    ensures Attempts(jobs[id := job]) == Attempts(jobs) - jobs[id].retryCount + job.retryCount
  {
    var n := |jobs| - 1;
    if id < n {
      AttemptsUpdate(jobs[..n], id, job);
      assert jobs[id := job][..n] == jobs[..n][id := job];
    } else {
      assert jobs[id := job][..n] == jobs[..n];
    }
  }

  lemma StepAttempts(jobs: seq<Job>, call: Call)
    ensures Attempts(Step(jobs, call)) == Attempts(jobs) + if HandedOut(jobs, call).Some? then 1 else 0
  {
    if Written(jobs, call).Ok? && Written(jobs, call).value.Some? {
      var (id, job) := Written(jobs, call).value.value;
      if id < |jobs| {
        AttemptsUpdate(jobs, id, job);
      } else {
        assert (jobs + [job])[..|jobs|] == jobs;
      }
    }
  }

  /** Attempts are conserved: the retry counts of the table add up to the pops of the run. */
  lemma {:induction false} PopsAreCounted(calls: seq<Call>)
    ensures PopCount(calls) == Attempts(After(calls))
  {
    if calls != [] {
      PopsAreCounted(calls[..|calls| - 1]);
      StepAttempts(After(calls[..|calls| - 1]), calls[|calls| - 1]);
    }
  }

  lemma {:induction false} AttemptsWithinAllowance(jobs: seq<Job>)
    requires AllConsistent(jobs)
    ensures Attempts(jobs) <= Allowance(jobs)
  {
    if jobs != [] {
      AttemptsWithinAllowance(jobs[..|jobs| - 1]);
      assert Consistent(jobs[|jobs| - 1]);
    }
  }

  /** No interleaving of workers pops more often than the retry limits allow in sum. */
  lemma {:induction false} TotalPopsBounded(calls: seq<Call>)
    ensures PopCount(calls) <= Allowance(After(calls))
  {
    PopsAreCounted(calls);
    ReachableIsConsistent(calls);
    AttemptsWithinAllowance(After(calls));
  }

  // ----- the limit and the last attempt of one job -----

  /** The submission that made the row. */
  function SubmittedAs(calls: seq<Call>, id: nat): (r: Option<Call>)
    ensures r.Some? ==> r.value in calls && r.value.Submit?
  {
    if calls == [] then None
    else
      var init, last := calls[..|calls| - 1], calls[|calls| - 1];
      var r := SubmittedAs(init, id);
      if r.Some? then r else if last.Submit? && |After(init)| == id then Some(last) else None
  }

  /** The default limit the first worker brought that got the job. */
  function FirstDefault(calls: seq<Call>, id: nat): Option<int> {
    if calls == [] then None
    else
      var init, last := calls[..|calls| - 1], calls[|calls| - 1];
      var r := FirstDefault(init, id);
      if r.Some? then r else if HandedOut(After(init), last) == Some(id) then Some(last.retryMaxIfZero) else None
  }

  /** In every run a job keeps its queue and the limit it was submitted with, but that a zero
      limit becomes the positive default of the first worker that got the job. */
  lemma {:induction false} LimitOverRuns(calls: seq<Call>, id: nat)
    ensures id < |After(calls)| <==> SubmittedAs(calls, id).Some?
    ensures id < |After(calls)| ==>
              var job, submit, default := After(calls)[id], SubmittedAs(calls, id).value, FirstDefault(calls, id);
              && job.queueName == submit.queueName
              && (job.startedAt.Some? <==> default.Some?)
              && job.retryMax == if submit.retryMax == 0 && default.Some? && default.value > 0 then default.value
                                 else submit.retryMax
    ensures id >= |After(calls)| ==> FirstDefault(calls, id).None?
  {
    if calls != [] {
      var init, last := calls[..|calls| - 1], calls[|calls| - 1];
      LimitOverRuns(init, id);
      var w := Written(After(init), last);
      if w.Ok? && w.value.Some? {
        CallEffects(After(init), last, w.value.value.0);
      }
    }
  }

  /** Failure reports on the job that were not refused. */
  function Failures(calls: seq<Call>, id: nat): nat {
    if calls == [] then 0
    else
      var init, last := calls[..|calls| - 1], calls[|calls| - 1];
      Failures(init, id) + if last.FinishFail? && last.id == id && Written(After(init), last).Ok? then 1 else 0
  }

  /** Whatever ends an attempt at the job, or the job, is a failure report from a running attempt. */
  predicate OnlyFails(calls: seq<Call>, id: nat) {
    calls == [] ||
    var init, last := calls[..|calls| - 1], calls[|calls| - 1];
    && OnlyFails(init, id)
    && (!last.Submit? && !last.Pop? && last.id == id && id < |After(init)| && After(init)[id].state != Finished ==>
          last.FinishFail? && After(init)[id].state == Running)
  }

  /** A job whose attempts all fail is finished exactly by its max(1, limit)-th failure. */
  lemma {:induction false} FinishedByLastFailure(calls: seq<Call>, id: nat)
    requires OnlyFails(calls, id) && id < |After(calls)|
    ensures var job, failures := After(calls)[id], Failures(calls, id);
            && failures <= Max(1, job.retryMax)
            && (job.state == Finished <==> failures == Max(1, job.retryMax))
            && (job.state == Finished ==> job.finishStatus == Some(Failed))
            && job.retryCount == failures + if job.state == Running then 1 else 0
  {
    var init, last := calls[..|calls| - 1], calls[|calls| - 1];
    ReachableIsConsistent(init);
    if id < |After(init)| {
      FinishedByLastFailure(init, id);
      assert Consistent(After(init)[id]);
    } else {
      NoFailuresBefore(init, id);
    }
    RefusedExactly(After(init), last);
    var w := Written(After(init), last);
    if w.Ok? && w.value.Some? {
      CallEffects(After(init), last, w.value.value.0);
    }
  }

  lemma {:induction false} NoFailuresBefore(calls: seq<Call>, id: nat)
    requires id >= |After(calls)|
    ensures Failures(calls, id) == 0
  {
    if calls != [] {
      NoFailuresBefore(calls[..|calls| - 1], id);
    }
  }

  // ----- termination without further submissions -----

  /** Attempts a job may still get when workers bring default limits of at most `cap`. */
  function AttemptsLeft(job: Job, cap: int): int {
    if job.state == Finished then 0
    else if job.startedAt.None? && job.retryMax == 0 then Max(1, cap) - job.retryCount
    else Max(1, job.retryMax) - job.retryCount
  }

  function TotalLeft(jobs: seq<Job>, cap: int): int {
    if jobs == [] then 0 else TotalLeft(jobs[..|jobs| - 1], cap) + AttemptsLeft(jobs[|jobs| - 1], cap)
  }

  lemma {:induction false} TotalLeftUpdate(jobs: seq<Job>, id: nat, job: Job, cap: int)
    requires id < |jobs|
    ensures TotalLeft(jobs[id := job], cap)
         == TotalLeft(jobs, cap) - AttemptsLeft(jobs[id], cap) + AttemptsLeft(job, cap)
  {
    var n := |jobs| - 1;
    if id < n {
      TotalLeftUpdate(jobs[..n], id, job, cap);
      assert jobs[id := job][..n] == jobs[..n][id := job];
    } else {
      assert jobs[id := job][..n] == jobs[..n];
    }
  }

  lemma {:induction false} TotalLeftNonNegative(jobs: seq<Job>, cap: int)
    requires AllConsistent(jobs)
    ensures TotalLeft(jobs, cap) >= 0
  {
    if jobs != [] {
      TotalLeftNonNegative(jobs[..|jobs| - 1], cap);
      assert Consistent(jobs[|jobs| - 1]);
    }
  }

  predicate Capped(call: Call, cap: int) {
    !call.Submit? && (call.Pop? ==> call.retryMaxIfZero <= cap)
  }

  lemma RowUsesUpAttempts(jobs: seq<Job>, call: Call, cap: int, id: nat, job: Job)
    requires AllConsistent(jobs) && Capped(call, cap) && Written(jobs, call) == Ok(Some((id, job)))
    ensures id < |jobs| && AttemptsLeft(job, cap) + (if call.Pop? then 1 else 0) <= AttemptsLeft(jobs[id], cap)
  {
    CallEffects(jobs, call, id);
    assert Consistent(jobs[id]);
  }

  /** The measure: every pop takes at least one of the attempts left, no call but submit adds any. */
  lemma {:induction false} PopUsesUpAttempts(jobs: seq<Job>, call: Call, cap: int)
    requires AllConsistent(jobs) && Capped(call, cap)
    ensures TotalLeft(Step(jobs, call), cap) + (if HandedOut(jobs, call).Some? then 1 else 0) <= TotalLeft(jobs, cap)
    ensures AllConsistent(Step(jobs, call))
  {
    StepIsConsistent(jobs, call);
    if Written(jobs, call).Ok? && Written(jobs, call).value.Some? {
      var (id, job) := Written(jobs, call).value.value;
      RowUsesUpAttempts(jobs, call, cap, id, job);
      TotalLeftUpdate(jobs, id, job, cap);
    }
  }

  function RunFrom(jobs: seq<Job>, calls: seq<Call>): seq<Job>
    decreases |calls|
  {
    if calls == [] then jobs else RunFrom(Step(jobs, calls[0]), calls[1..])
  }

  function PopsFrom(jobs: seq<Job>, calls: seq<Call>): nat
    decreases |calls|
  {
    if calls == [] then 0
    else (if HandedOut(jobs, calls[0]).Some? then 1 else 0) + PopsFrom(Step(jobs, calls[0]), calls[1..])
  }

  /** From any reachable table the workers can only pop a fixed number of times more. */
  lemma {:induction false} QueueRunsDry(jobs: seq<Job>, calls: seq<Call>, cap: int)
    requires AllConsistent(jobs) && forall i :: 0 <= i < |calls| ==> Capped(calls[i], cap)
    ensures PopsFrom(jobs, calls) <= TotalLeft(jobs, cap)
    decreases |calls|
  {
    if calls == [] {
      TotalLeftNonNegative(jobs, cap);
    } else {
      PopUsesUpAttempts(jobs, calls[0], cap);
      QueueRunsDry(Step(jobs, calls[0]), calls[1..], cap);
    }
  }

  // ----- order and exclusiveness -----

  /** A pop takes the least id pending in its queue, so a requeued job goes before every
      later submission; it comes back empty-handed only when nothing is pending. */
  lemma {:induction false} PopIsFirstInFirstOut(jobs: seq<Job>, call: Call)
    requires AllConsistent(jobs) && call.Pop? && call.worker.Some?
    ensures match HandedOut(jobs, call)
            case Some(id) =>
              && id < |jobs| && jobs[id].queueName == call.queue && jobs[id].state == Pending
              && (forall i :: 0 <= i < |jobs| && jobs[i].queueName == call.queue && jobs[i].state == Pending ==> id <= i)
            case None =>
              forall i :: 0 <= i < |jobs| ==> !(jobs[i].queueName == call.queue && jobs[i].state == Pending)
  {
    assert forall i :: 0 <= i < |jobs| ==> (Consistent(jobs[i]) && jobs[i].state == Pending ==> jobs[i].workerId.None?);
  }

  lemma {:induction false} RowsSettle(jobs: seq<Job>, calls: seq<Call>, id: nat)
    requires AllConsistent(jobs) && id < |jobs|
    ensures id < |RunFrom(jobs, calls)| && Settled(jobs[id], RunFrom(jobs, calls)[id])
    decreases |calls|
  {
    if calls != [] {
      StepIsConsistent(jobs, calls[0]);
      RowsSettle(Step(jobs, calls[0]), calls[1..], id);
    }
  }

  predicate Requeues(jobs: seq<Job>, call: Call, id: nat) {
    call.FinishFail? && call.id == id && id < |jobs| && jobs[id].state == Running && jobs[id].retryMax > jobs[id].retryCount
  }

  lemma {:induction false} OnlyFailureRequeues(jobs: seq<Job>, call: Call, id: nat)
    requires AllConsistent(jobs) && id < |jobs| && jobs[id].state != Pending
    ensures Step(jobs, call)[id].state == Pending ==> Requeues(jobs, call, id)
  {
  }

  /** A job that is not pending now and pending later was put back by a failure report. */
  lemma {:induction false} FindRequeue(calls: seq<Call>, i: nat, j: nat, id: nat) returns (k: nat)
    requires i <= j <= |calls|
    requires id < |After(calls[..i])| && After(calls[..i])[id].state != Pending
    requires id < |After(calls[..j])| && After(calls[..j])[id].state == Pending
    ensures i <= k < j && Requeues(After(calls[..k]), calls[k], id)
    decreases j
  {
    var before := After(calls[..j - 1]);
    assert calls[..j][..j - 1] == calls[..j - 1];
    assert After(calls[..j]) == Step(before, calls[j - 1]);
    NeverShrinks(calls, i, j - 1);
    if before[id].state == Pending {
      k := FindRequeue(calls, i, j - 1, id);
    } else {
      ReachableIsConsistent(calls[..j - 1]);
      OnlyFailureRequeues(before, calls[j - 1], id);
      k := j - 1;
    }
  }

  lemma {:induction false} NeverShrinks(calls: seq<Call>, i: nat, j: nat)
    requires i <= j <= |calls|
    ensures |After(calls[..i])| <= |After(calls[..j])|
    decreases j
  {
    if i < j {
      assert calls[..j][..j - 1] == calls[..j - 1];
      NeverShrinks(calls, i, j - 1);
    }
  }

  /** A popped job reaches no second worker until a failure report has requeued it. */
  lemma {:induction false} HandedOutOnce(calls: seq<Call>, i: nat, j: nat, id: nat)
    requires i < j < |calls|
    requires HandedOut(After(calls[..i]), calls[i]) == Some(id)
    requires HandedOut(After(calls[..j]), calls[j]) == Some(id)
    ensures exists k :: i < k < j && Requeues(After(calls[..k]), calls[k], id)
  {
    assert calls[..i + 1][..i] == calls[..i];
    var k := FindRequeue(calls, i + 1, j, id);
  }
}
