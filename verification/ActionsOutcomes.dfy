/**
What each request leaves in the tables, row by row and in the words of the rows themselves: which jobs
a claim may hand out, what becomes of a job whose runner is gone, how a report ends a job and frees its
runner.
*/
module ActionsOutcomes {
  import opened Wrappers
  import opened ResultCodes
  import opened ActionsModel
  import opened ActionsInvariants
  import opened ActionsClaims

  // ---------------------------------------------------------------- rows before and after

  predicate SameJob(a: Job, b: Job) {
    b.runId == a.runId && b.labels == a.labels && b.createdAt == a.createdAt
  }

  predicate SameHolder(a: Job, b: Job) {
    b.runner == a.runner && b.runnerName == a.runnerName && b.startedAt == a.startedAt
  }

  predicate SameStep(a: StepRow, b: StepRow) {
    b.number == a.number && b.name == a.name
  }

  /** A runner has reported something about one of the job's steps. */
  predicate HadStarted(job: Job) {
    exists i :: 0 <= i < |job.steps| && job.steps[i].status.Some? && job.steps[i].status.value != "queued"
  }

  predicate SkippedStep(a: StepRow, b: StepRow) {
    && SameStep(a, b) && b.status == Some("completed") && b.conclusion == Some("skipped")
    && b.completedAt == a.completedAt && b.message == a.message
  }

  /** The step that was running fails, with the message; those not begun are skipped; the others stay. */
  predicate LostStepRow(a: StepRow, b: StepRow, now: Time) {
    if a.status == None || a.status == Some("queued") then SkippedStep(a, b)
    else if a.status == Some("in_progress") then
      && SameStep(a, b) && b.status == Some("completed") && b.conclusion == Some("failure")
      && b.completedAt == Some(now) && b.message == Some(LOST_RUNNER_MESSAGE)
    else b == a
  }

  predicate FailedAsLost(a: Job, b: Job, now: Time) {
    && SameJob(a, b) && SameHolder(a, b)
    && b.status == Completed && b.conclusion == Some("failure") && b.completedAt == Some(now)
    && |b.steps| == |a.steps| && forall i :: 0 <= i < |a.steps| ==> LostStepRow(a.steps[i], b.steps[i], now)
  }

  predicate QueuedStep(a: StepRow, b: StepRow) {
    && SameStep(a, b) && b.status == Some("queued") && b.conclusion == None
    && b.completedAt == a.completedAt && b.message == a.message
  }

  predicate QueuedAgain(a: Job, b: Job) {
    && SameJob(a, b)
    && b.status == Queued && b.runner == None && b.runnerName == None && b.startedAt == None
    && b.conclusion == a.conclusion && b.completedAt == a.completedAt
    && |b.steps| == |a.steps| && forall i :: 0 <= i < |a.steps| ==> QueuedStep(a.steps[i], b.steps[i])
  }

  /** An unfinished job is cancelled, its steps and its holder as they were. */
  predicate CancelledNow(a: Job, b: Job, now: Time) {
    && SameJob(a, b) && SameHolder(a, b) && b.steps == a.steps
    && b.status == Completed && b.conclusion == Some("cancelled") && b.completedAt == Some(now)
  }

  /** Queued again, unless a scheduler call right after it superseded the job. */
  predicate BackOnQueue(a: Job, b: Job, superseded: bool) {
    if superseded then Cancelled(b) else QueuedAgain(a, b)
  }

  lemma LostOutcome(job: Job, now: Time)
    ensures if HadStarted(job) then FailedAsLost(job, Lost(job, now), now) else QueuedAgain(job, Lost(job, now))
    ensures HadStarted(job) <==> Started(job.steps)
  {
  }

  lemma RequeuedOutcome(job: Job)
    ensures QueuedAgain(job, Requeued(job))
  {
  }

  // ---------------------------------------------------------------- which jobs a claim may hand out

  /** The declared labels all lie among the given ones; a job that declares none wants a self-hosted runner. */
  predicate RunsOn(job: Job, labels: set<string>) {
    if job.labels == {} then "self-hosted" in labels else forall l :: l in job.labels ==> l in labels
  }

  /** The job's run is of the runner's repository, when the runner has one. */
  predicate WithinReach(s: State, r: RunnerId, job: Job)
    requires r in s.runners
  {
    && job.runId in s.runs
    && (s.runners[r].repo.Some? ==> s.runs[job.runId].repo == s.runners[r].repo.value)
  }

  predicate OpenToCustom(s: State, r: RunnerId, labels: set<string>, j: nat)
    requires r in s.runners
  {
    && j < |s.jobs| && s.jobs[j].status == Queued
    && RunsOn(s.jobs[j], labels) && WithinReach(s, r, s.jobs[j])
    && s.runs[s.jobs[j].runId].status != RunCompleted
  }

  predicate OpenToUpstream(s: State, r: RunnerId, j: nat)
    requires r in s.runners
  {
    && j < |s.jobs| && s.jobs[j].status == Queued && s.jobs[j].runner == None
    && RunsOn(s.jobs[j], s.runners[r].labels) && WithinReach(s, r, s.jobs[j])
  }

  lemma RunsOnIff(job: Job, labels: set<string>)
    ensures RequiredLabels(job) <= labels <==> RunsOn(job, labels)
  {
  }

  lemma EligibleIff(s: State, r: RunnerId, labels: set<string>, j: nat)
    requires r in s.runners
    ensures CustomEligible(s, r, labels, j) <==> OpenToCustom(s, r, labels, j)
    ensures UpstreamEligible(s, r, j) <==> OpenToUpstream(s, r, j)
  {
  }

  /** The job is the runner's, and in progress; nothing else about it changed. */
  predicate HandedOut(a: Job, b: Job, r: RunnerId, name: string, now: Time) {
    && SameJob(a, b)
    && b.status == InProgress && b.runner == Some(r) && b.runnerName == Some(name) && b.startedAt == Some(now)
    && b.conclusion == a.conclusion && b.completedAt == a.completedAt && b.steps == a.steps
  }

  /** What a request leaves of a job its own writes put back on the queue. */
  lemma QueuedThenDispatched(s: State, e: Event, a: Job, j: nat)
    requires j < |Effect(s, e).jobs| && QueuedAgain(a, Effect(s, e).jobs[j])
    ensures j < |Step(s, e).jobs| && BackOnQueue(a, Step(s, e).jobs[j], Superseded(s, e, j))
  {
    DispatchAllTakes(Effect(s, e), After(s, e), j);
  }

  lemma EndedThenDispatched(s: State, e: Event, j: nat)
    requires j < |Effect(s, e).jobs| && Effect(s, e).jobs[j].status == Completed
    ensures j < |Step(s, e).jobs| && Step(s, e).jobs[j] == Effect(s, e).jobs[j]
  {
    StepFrame(s, e);
    assert MayDispatch(Effect(s, e).jobs[j], Step(s, e).jobs[j]);
  }

  // ---------------------------------------------------------------- jobs whose runner is gone

  predicate InProgressOn(job: Job, r: RunnerId) {
    job.status == InProgress && job.runner == Some(r)
  }

  predicate SettledForNewProcess(s: State, e: Event, j: nat, b: Job)
    requires e.Reregister? && j < |s.jobs|
  {
    if !InProgressOn(s.jobs[j], e.r) then MayDispatch(s.jobs[j], b)
    else if HadStarted(s.jobs[j]) then FailedAsLost(s.jobs[j], b, e.now)
    else BackOnQueue(s.jobs[j], b, Superseded(s, e, j))
  }

  /**
  Registering over a row settles what the row held: a job with a step begun fails, with the lost-runner
  message, any other goes back on the queue, and a job it did not hold is left to the scheduler.
  */
  lemma ReregisterOutcome(s: State, r: RunnerId, labels: set<string>, now: Time, after: seq<Dispatch>, j: nat)
    requires r in s.runners && j < |s.jobs|
    ensures var e := Reregister(r, labels, now, after);
            |Step(s, e).jobs| == |s.jobs| && SettledForNewProcess(s, e, j, Step(s, e).jobs[j])
  {
    var e := Reregister(r, labels, now, after);
    StepFrame(s, e);
    assert MayDispatch(Effect(s, e).jobs[j], Step(s, e).jobs[j]);
    if InProgressOn(s.jobs[j], r) {
      assert Effect(s, e).jobs[j] == Lost(s.jobs[j], now);
      LostOutcome(s.jobs[j], now);
      if HadStarted(s.jobs[j]) { EndedThenDispatched(s, e, j); } else { QueuedThenDispatched(s, e, s.jobs[j], j); }
    }
  }

  /** The job's runner is registered and was last heard of before the threshold. */
  predicate RunnerLost(s: State, job: Job, now: Time) {
    && job.status == InProgress && job.runner.Some? && job.runner.value in s.runners
    && s.runners[job.runner.value].lastHeartbeat.Some?
    && now - s.runners[job.runner.value].lastHeartbeat.value > STALE_THRESHOLD
  }

  /** The job was handed out before the acknowledgement window and nothing of it has begun. */
  predicate NeverBegun(job: Job, now: Time) {
    job.status == InProgress && job.startedAt.Some? && now - job.startedAt.value > CLAIM_ACK && !HadStarted(job)
  }

  lemma SweepOutcome(s: State, now: Time, ackNow: Time, after: seq<Dispatch>, j: nat)
    requires j < |s.jobs|
    ensures var e := Sweep(now, ackNow, after);
            var t := Step(s, e);
            && |t.jobs| == |s.jobs|
            && if RunnerLost(s, s.jobs[j], now) && HadStarted(s.jobs[j]) then FailedAsLost(s.jobs[j], t.jobs[j], now)
               else if RunnerLost(s, s.jobs[j], now) || NeverBegun(s.jobs[j], ackNow)
                 then BackOnQueue(s.jobs[j], t.jobs[j], Superseded(s, e, j))
               else MayDispatch(s.jobs[j], t.jobs[j])
  {
    var e := Sweep(now, ackNow, after);
    var a, m := s.jobs[j], StaleSettled(s, now).jobs[j];
    StepFrame(s, e);
    assert MayDispatch(Effect(s, e).jobs[j], Step(s, e).jobs[j]);
    LostOutcome(a, now);
    RequeuedOutcome(a);
    if RunnerLost(s, a, now) {
      assert m == Lost(a, now) == Effect(s, e).jobs[j];
      if HadStarted(a) { EndedThenDispatched(s, e, j); } else { QueuedThenDispatched(s, e, a, j); }
    } else if NeverBegun(a, ackNow) {
      assert m == a && Effect(s, e).jobs[j] == Requeued(a);
      QueuedThenDispatched(s, e, a, j);
    } else {
      assert m == a == Effect(s, e).jobs[j];
    }
  }

  /** The operators' two buttons: put a job that is not finished back on the queue, or fail one in progress. */
  lemma OperatorOutcome(s: State, j: nat, now: Time, after: seq<Dispatch>)
    ensures var t := Step(s, OperatorRequeue(j));
            if j >= |s.jobs| || s.jobs[j].status == Completed then t == s
            else QueuedAgain(s.jobs[j], t.jobs[j]) && t == s.(jobs := s.jobs[j := t.jobs[j]])
    ensures var e := OperatorFail(j, now, after);
            var t := Step(s, e);
            if j >= |s.jobs| || s.jobs[j].status != InProgress then t == s
            else
              && |t.jobs| == |s.jobs| && t.runners == s.runners
              && (forall i :: 0 <= i < |s.jobs| && i != j ==> MayDispatch(s.jobs[i], t.jobs[i]))
              && (if HadStarted(s.jobs[j]) then FailedAsLost(s.jobs[j], t.jobs[j], now)
                  else QueuedAgain(s.jobs[j], t.jobs[j]) && t == s.(jobs := s.jobs[j := t.jobs[j]]))
  {
    var e := OperatorFail(j, now, after);
    StepFrame(s, e);
    if j < |s.jobs| {
      LostOutcome(s.jobs[j], now);
      RequeuedOutcome(s.jobs[j]);
      if s.jobs[j].status == InProgress && HadStarted(s.jobs[j]) {
        EndedThenDispatched(s, e, j);
      }
      forall i | 0 <= i < |s.jobs| && i != j && s.jobs[j].status == InProgress
        ensures MayDispatch(s.jobs[i], Step(s, e).jobs[i])
      {
        assert Effect(s, e).jobs[i] == s.jobs[i];
      }
    }
  }

  /** A row the request's own writes ended, or added as ended. */
  predicate EndsAJob(s: State, e: Event) {
    exists j :: 0 <= j < |Effect(s, e).jobs| && EndedHere(s, Effect(s, e), j)
  }

  predicate EndedHere(s: State, m: State, j: nat)
    requires j < |m.jobs|
  {
    m.jobs[j].status == Completed && (j >= |s.jobs| || s.jobs[j].status != Completed)
  }

  /** What one scheduler call makes of a job, by its status and what the call is to do with it, and of a run. */
  lemma DispatchOutcome(job: Job, j: nat, d: Dispatch, s: State, k: RunId)
    ensures k in s.runs && k in d.runOutcomes ==>
              k in DispatchOnce(s, d).runs
              && DispatchOnce(s, d).runs[k] == Run(s.runs[k].repo, d.runOutcomes[k].0, d.runOutcomes[k].1)
    ensures k in s.runs && k !in d.runOutcomes ==>
              k in DispatchOnce(s, d).runs && DispatchOnce(s, d).runs[k] == s.runs[k]
    ensures var b := DispatchedJob(job, j, d);
            match job.status
            case Waiting =>
              if j in d.promoted then b == job.(status := Queued, steps := d.promoted[j])
              else if j in d.skipped then
                && b.status == Completed && b.conclusion == Some("skipped") && b.completedAt == Some(d.now)
                && b.steps == d.skipped[j] && SameJob(job, b) && SameHolder(job, b)
              else b == job
            case Completed => b == job
            case _ => if j in d.superseded then CancelledNow(job, b, d.now) else b == job
  {
  }

  /** Where a runner is found gone, the scheduler is called exactly when some job was failed for it. */
  lemma SchedulerFollowsIff(s: State, e: Event)
    requires e.Reregister? || e.Sweep? || e.OperatorFail?
    ensures After(s, e) == if EndsAJob(s, e) then e.after else []
  {
    var m := Effect(s, e);
    if e.Sweep? {
      forall j | 0 <= j < |s.jobs|
        ensures EndedHere(s, m, j) <==> StaleJob(s, s.jobs[j], e.now) && Started(s.jobs[j].steps)
      {
        assert StaleSettled(s, e.now).jobs[j] == SettledJob(s, s.jobs[j], e.now);
      }
    } else if e.Reregister? && e.r in s.runners {
      forall j | 0 <= j < |s.jobs|
        ensures EndedHere(s, m, j) <==> Holds(s.jobs, e.r, j) && Started(s.jobs[j].steps) { }
    } else if e.OperatorFail? && e.j < |s.jobs| {
      assert EndedHere(s, m, e.j) <==> s.jobs[e.j].status == InProgress && Started(s.jobs[e.j].steps);
    }
  }

  // ---------------------------------------------------------------- claims

  /** A claim that is granted hands out the one job it names; any other changes nothing. */
  lemma ClaimOutcome(s: State, e: Event, r: RunnerId, j: nat)
    requires (e.ClaimCustom? || e.ClaimUpstream?) && e.r == r && e.j == j
    ensures var t := Step(s, e);
            if !Takes(s, e, r, j) then t == s
            else
              && |t.jobs| == |s.jobs| && HandedOut(s.jobs[j], t.jobs[j], r, s.runners[r].name, e.now)
              && (forall i :: 0 <= i < |s.jobs| && i != j ==> t.jobs[i] == s.jobs[i])
              && t.runners == s.runners[r := s.runners[r].(busy := true, status := Busy)]
              && t.runs.Keys == s.runs.Keys
              && forall k :: k in s.runs ==>
                   t.runs[k] == if k == s.jobs[j].runId && s.runs[k].status == RunQueued
                     then s.runs[k].(status := RunInProgress) else s.runs[k]
  {
  }

  /** Which claims are granted, and to which job: an oldest of those open to the runner. */
  lemma TakesIff(s: State, e: Event, r: RunnerId, j: nat)
    requires (e.ClaimCustom? || e.ClaimUpstream?) && e.r == r && e.j == j && r in s.runners
    ensures Takes(s, e, r, j) <==>
              if e.ClaimCustom? then
                && OpenToCustom(s, r, e.labels, j)
                && forall i :: 0 <= i < |s.jobs| && OpenToCustom(s, r, e.labels, i) ==>
                     s.jobs[j].createdAt <= s.jobs[i].createdAt
              else
                && !s.runners[r].busy && s.runners[r].status != Busy && OpenToUpstream(s, r, j)
                && forall i :: 0 <= i < |s.jobs| && OpenToUpstream(s, r, i) ==>
                     s.jobs[j].createdAt <= s.jobs[i].createdAt
  {
    forall i: nat
      ensures e.ClaimCustom? ==> (CustomEligible(s, r, e.labels, i) <==> OpenToCustom(s, r, e.labels, i))
      ensures UpstreamEligible(s, r, i) <==> OpenToUpstream(s, r, i)
    {
      EligibleIff(s, r, if e.ClaimCustom? then e.labels else {}, i);
    }
  }

  /** No job open to the runner is older than j. */
  predicate NoOlderOpen(s: State, r: RunnerId, j: nat)
    requires r in s.runners && j < |s.jobs|
  {
    forall i :: 0 <= i < |s.jobs| && OpenToUpstream(s, r, i) ==> s.jobs[j].createdAt <= s.jobs[i].createdAt
  }

  /** No job open to the runner in the custom protocol is older than j. */
  predicate NoOlderOpenToCustom(s: State, r: RunnerId, labels: set<string>, j: nat)
    requires r in s.runners && j < |s.jobs|
  {
    forall i :: 0 <= i < |s.jobs| && OpenToCustom(s, r, labels, i) ==> s.jobs[j].createdAt <= s.jobs[i].createdAt
  }

  predicate SomeOpenToUpstream(s: State, r: RunnerId)
    requires r in s.runners
  {
    exists i :: 0 <= i < |s.jobs| && OpenToUpstream(s, r, i)
  }

  predicate SomeOpenToCustom(s: State, r: RunnerId, labels: set<string>)
    requires r in s.runners
  {
    exists i :: 0 <= i < |s.jobs| && OpenToCustom(s, r, labels, i)
  }

  lemma UpstreamGranted(s: State, r: RunnerId, j: nat, now: Time)
    requires r in s.runners && !s.runners[r].busy && s.runners[r].status != Busy
    requires OpenToUpstream(s, r, j) && NoOlderOpen(s, r, j)
    ensures SomeOpenToUpstream(s, r)
    ensures Step(s, ClaimUpstream(r, j, now)) == Claimed(s, r, j, now)
    ensures |Claimed(s, r, j, now).jobs| == |s.jobs|
    ensures HandedOut(s.jobs[j], Claimed(s, r, j, now).jobs[j], r, s.runners[r].name, now)
  {
    TakesIff(s, ClaimUpstream(r, j, now), r, j);
  }

  lemma CustomGranted(s: State, r: RunnerId, labels: set<string>, j: nat, now: Time)
    requires r in s.runners && OpenToCustom(s, r, labels, j) && NoOlderOpenToCustom(s, r, labels, j)
    ensures SomeOpenToCustom(s, r, labels)
    ensures Step(s, ClaimCustom(r, labels, j, now)) == Claimed(s, r, j, now)
    ensures |Claimed(s, r, j, now).jobs| == |s.jobs|
    ensures HandedOut(s.jobs[j], Claimed(s, r, j, now).jobs[j], r, s.runners[r].name, now)
  {
    TakesIff(s, ClaimCustom(r, labels, j, now), r, j);
  }

  predicate OldestOfFirst(s: State, r: RunnerId, n: nat, k: nat)
    requires r in s.runners && n <= |s.jobs|
  {
    && k < |s.jobs| && OpenToUpstream(s, r, k)
    && forall i :: 0 <= i < n && OpenToUpstream(s, r, i) ==> s.jobs[k].createdAt <= s.jobs[i].createdAt
  }

  lemma {:induction false} OldestOpen(s: State, r: RunnerId, j: nat, n: nat)
    requires r in s.runners && j < |s.jobs| && OpenToUpstream(s, r, j) && n <= |s.jobs|
    ensures exists k: nat :: OldestOfFirst(s, r, n, k)
    decreases n
  {
    if n == 0 {
      assert OldestOfFirst(s, r, 0, j);
    } else {
      OldestOpen(s, r, j, n - 1);
      var k: nat :| OldestOfFirst(s, r, n - 1, k);
      if OpenToUpstream(s, r, n - 1) && s.jobs[n - 1].createdAt < s.jobs[k].createdAt {
        assert OldestOfFirst(s, r, n, n - 1);
      } else {
        assert OldestOfFirst(s, r, n, k);
      }
    }
  }

  // ---------------------------------------------------------------- reports

  /** The row of a runner that may be given a job: online, not busy, all else as it was. */
  predicate FreeRow(x: Runner, y: Runner) {
    y == x.(busy := false, status := Online)
  }

  predicate ConcludedAs(a: Job, b: Job, conclusion: string, now: Time) {
    && SameJob(a, b) && SameHolder(a, b)
    && b.status == Completed && b.conclusion == Some(conclusion) && b.completedAt == Some(now)
  }

  /** Every step not yet finished ends with the conclusion, or skipped if it is a cancellation; the others stay. */
  predicate StepsFinished(a: seq<StepRow>, b: seq<StepRow>, conclusion: string) {
    && |b| == |a|
    && forall i :: 0 <= i < |a| ==>
         if a[i].status == Some("completed") then b[i] == a[i]
         else
           && SameStep(a[i], b[i]) && b[i].status == Some("completed")
           && b[i].conclusion == Some(if conclusion == "cancelled" then "skipped" else conclusion)
           && b[i].completedAt == a[i].completedAt && b[i].message == a[i].message
  }

  lemma FinishedOutcome(steps: seq<StepRow>, conclusion: string)
    ensures StepsFinished(steps, FinishedSteps(steps, conclusion), conclusion)
  {
  }

  /** Job j apart, a request leaves the rows of jobs and runs to the scheduler. */
  predicate OthersDispatched(s: State, t: State, j: nat) {
    && |t.jobs| == |s.jobs|
    && (forall i :: 0 <= i < |s.jobs| && i != j ==> MayDispatch(s.jobs[i], t.jobs[i]))
    && t.runs.Keys == s.runs.Keys
  }

  predicate OnlyRunner(s: State, t: State, r: RunnerId) {
    t.runners.Keys == s.runners.Keys && forall q :: q in s.runners && q != r ==> t.runners[q] == s.runners[q]
  }

  lemma ProgressOutcome(s: State, r: RunnerId, j: nat, steps: Option<seq<StepRow>>)
    ensures var t := Step(s, Progress(r, j, steps));
            if r !in s.runners || j >= |s.jobs| || s.jobs[j].runner != Some(r) || steps == None then t == s
            else
              && |t.jobs| == |s.jobs| && t.jobs[j].steps == steps.value
              && t.jobs[j] == s.jobs[j].(steps := t.jobs[j].steps)
              && t == s.(jobs := s.jobs[j := t.jobs[j]])
  {
  }

  /** A report of the custom protocol: only the job's own runner ends it, and a cancelled job stays as it is. */
  lemma CompleteCustomOutcome(s: State, r: RunnerId, j: nat, conclusion: string, steps: Option<seq<StepRow>>,
                              now: Time, after: seq<Dispatch>)
    ensures var t := Step(s, CompleteCustom(r, j, conclusion, steps, now, after));
            if r !in s.runners || j >= |s.jobs| || s.jobs[j].runner != Some(r) then t == s
            else
              && OnlyRunner(s, t, r) && FreeRow(s.runners[r], t.runners[r])
              && if s.jobs[j].status == Completed && s.jobs[j].conclusion == Some("cancelled")
                 then t.jobs == s.jobs && t.runs == s.runs
                 else
                   && OthersDispatched(s, t, j) && ConcludedAs(s.jobs[j], t.jobs[j], conclusion, now)
                   && t.jobs[j].steps == if steps.Some? then steps.value else s.jobs[j].steps
  {
    var e := CompleteCustom(r, j, conclusion, steps, now, after);
    StepFrame(s, e);
    if r in s.runners && Owns(s.jobs, r, j) && !Cancelled(s.jobs[j]) {
      EndedThenDispatched(s, e, j);
      forall i | 0 <= i < |s.jobs| && i != j ensures MayDispatch(s.jobs[i], Step(s, e).jobs[i]) {
        assert Effect(s, e).jobs[i] == s.jobs[i];
      }
    }
  }

  /** The job has ended with the conclusion, a successful one with its steps, and the runner is free. */
  predicate ReportTaken(s: State, t: State, r: RunnerId, j: nat, conclusion: string, now: Time) {
    && r in s.runners && j < |s.jobs|
    && OnlyRunner(s, t, r) && FreeRow(s.runners[r], t.runners[r]) && OthersDispatched(s, t, j)
    && ConcludedAs(s.jobs[j], t.jobs[j], conclusion, now)
    && if conclusion == "success" then StepsFinished(s.jobs[j].steps, t.jobs[j].steps, "success")
       else t.jobs[j].steps == s.jobs[j].steps
  }

  /** A report of the upstream protocol ends any job it names, with the conclusion its result stands for. */
  lemma CompleteUpstreamOutcome(s: State, r: RunnerId, j: nat, result: ResultCode, now: Time, after: seq<Dispatch>)
    ensures var t := Step(s, CompleteUpstream(r, j, result, now, after));
            if r !in s.runners || j >= |s.jobs| then t == s else ReportTaken(s, t, r, j, ConclusionOf(result), now)
  {
    var e := CompleteUpstream(r, j, result, now, after);
    StepFrame(s, e);
    if r in s.runners && j < |s.jobs| {
      EndedThenDispatched(s, e, j);
      forall i | 0 <= i < |s.jobs| && i != j ensures MayDispatch(s.jobs[i], Step(s, e).jobs[i]) {
        assert Effect(s, e).jobs[i] == s.jobs[i];
      }
    }
  }

  /** The job-request routes are the upstream report of the job's own runner, when they carry a result. */
  lemma CompleteRequestOutcome(s: State, r: RunnerId, j: nat, sent: Option<ResultCode>, now: Time, after: seq<Dispatch>)
    ensures Step(s, CompleteRequest(r, j, sent, now, after))
         == if r in s.runners && j < |s.jobs| && s.jobs[j].runner == Some(r) && sent.Some?
           then Step(s, CompleteUpstream(r, j, sent.value, now, after)) else s
  {
  }

  /** The runner's report of a completion was accepted. */
  predicate Accepted(s: State, e: Event, r: RunnerId) {
    match e
    case CompleteCustom(q, j, _, _, _, _) => q == r && r in s.runners && j < |s.jobs| && s.jobs[j].runner == Some(r)
    case CompleteUpstream(q, j, _, _, _) => q == r && r in s.runners && j < |s.jobs|
    case CompleteRequest(q, j, sent, _, _) =>
      q == r && r in s.runners && j < |s.jobs| && s.jobs[j].runner == Some(r) && sent.Some?
    case _ => false
  }

  /** The scheduler is called after each accepted report but that of a cancelled job in the custom protocol. */
  lemma SchedulerFollowsReport(s: State, e: Event)
    requires e.CompleteCustom? || e.CompleteUpstream? || e.CompleteRequest?
    ensures After(s, e)
         == if Accepted(s, e, e.r)
              && !(e.CompleteCustom? && s.jobs[e.j].status == Completed && s.jobs[e.j].conclusion == Some("cancelled"))
           then e.after else []
  {
  }

  lemma ReportFreesRunner(s: State, e: Event, r: RunnerId)
    requires Accepted(s, e, r)
    ensures r in Step(s, e).runners && FreeRow(s.runners[r], Step(s, e).runners[r])
  {
    match e
    case CompleteCustom(_, j, conclusion, steps, now, after) =>
      CompleteCustomOutcome(s, r, j, conclusion, steps, now, after);
    case CompleteUpstream(_, j, result, now, after) => CompleteUpstreamOutcome(s, r, j, result, now, after);
    case CompleteRequest(_, j, sent, now, after) =>
      CompleteRequestOutcome(s, r, j, sent, now, after);
      CompleteUpstreamOutcome(s, r, j, sent.value, now, after);
  }

  /** A runner that may be given a job: not busy in either way, and listed online until its heartbeat grows old. */
  ghost predicate Available(runner: Runner) {
    && !runner.busy && runner.status != Busy
    && (runner.lastHeartbeat.Some? ==>
          forall at: Time ::
            EffectiveStatus(runner, at)
              == if at - runner.lastHeartbeat.value <= STALE_THRESHOLD then Online else Offline)
  }

  /** Claiming job k hands it out, and no job open to the runner is older. */
  predicate ServesOldest(s: State, r: RunnerId, k: nat, now: Time)
    requires r in s.runners && k < |s.jobs|
  {
    var t := Step(s, ClaimUpstream(r, k, now));
    && NoOlderOpen(s, r, k)
    && |t.jobs| == |s.jobs| && HandedOut(s.jobs[k], t.jobs[k], r, s.runners[r].name, now)
  }

  lemma AvailableIsServed(s: State, r: RunnerId, j: nat, now: Time)
    requires r in s.runners && Available(s.runners[r]) && j < |s.jobs| && OpenToUpstream(s, r, j)
    ensures exists k: nat :: k < |s.jobs| && OpenToUpstream(s, r, k) && ServesOldest(s, r, k, now)
  {
    OldestOpen(s, r, j, |s.jobs|);
    var k: nat :| OldestOfFirst(s, r, |s.jobs|, k);
    UpstreamGranted(s, r, k, now);
    assert ServesOldest(s, r, k, now);
  }

  /**
  A runner whose report was accepted is listed online until its last heartbeat has grown old; when a job is
  open to it, a claim hands it one, an oldest of those.
  */
  lemma ReportedRunnerIsServed(s: State, e: Event, r: RunnerId, t: State, now: Time)
    requires Accepted(s, e, r) && t == Step(s, e)
    ensures r in t.runners && Available(t.runners[r]) && t.runners[r].lastHeartbeat == s.runners[r].lastHeartbeat
    ensures forall j: nat :: j < |t.jobs| && OpenToUpstream(t, r, j) ==>
              exists k: nat :: k < |t.jobs| && OpenToUpstream(t, r, k) && ServesOldest(t, r, k, now)
  {
    ReportFreesRunner(s, e, r);
    forall j: nat | j < |t.jobs| && OpenToUpstream(t, r, j)
      ensures exists k: nat :: k < |t.jobs| && OpenToUpstream(t, r, k) && ServesOldest(t, r, k, now)
    {
      AvailableIsServed(t, r, j, now);
    }
  }

  // ---------------------------------------------------------------- runner rows

  /** The requests by which a runner row comes, is renewed or is told of, touch that row and no other. */
  lemma RunnerRowOutcome(s: State, r: RunnerId, name: string, labels: set<string>, scope: Option<RepoId>, now: Time,
                         after: seq<Dispatch>)
    ensures var t := Step(s, RegisterNew(r, name, labels, scope, now));
            t == if r in s.runners then s else s.(runners := t.runners)
    ensures var t := Step(s, RegisterNew(r, name, labels, scope, now));
            r !in s.runners ==>
              && t.runners - {r} == s.runners
              && r in t.runners && t.runners[r] == Runner(name, labels, scope, Online, false, Some(now))
    ensures r in s.runners ==>
              && OnlyRunner(s, Step(s, Reregister(r, labels, now, after)), r)
              && OnlyRunner(s, Step(s, UpdateAgent(r, name, labels, now)), r)
              && OnlyRunner(s, Step(s, PollMessages(r, now)), r)
              && Step(s, Reregister(r, labels, now, after)).runners[r]
                 == Runner(s.runners[r].name, labels, s.runners[r].repo, Online, false, Some(now))
              && Step(s, UpdateAgent(r, name, labels, now)).runners[r]
                 == Runner(name, if labels == {} then s.runners[r].labels else labels, s.runners[r].repo, Online,
                           s.runners[r].busy, Some(now))
              && Step(s, PollMessages(r, now)).runners[r] == s.runners[r].(lastHeartbeat := Some(now))
    ensures r !in s.runners ==>
              && Step(s, Reregister(r, labels, now, after)) == s && Step(s, UpdateAgent(r, name, labels, now)) == s
              && Step(s, PollMessages(r, now)) == s
  {
    StepFrame(s, Reregister(r, labels, now, after));
    if r !in s.runners {
      assert Step(s, RegisterNew(r, name, labels, scope, now)).runners - {r} == s.runners;
    }
  }

  /** A runner that holds a job is not deleted; of one that is, nothing in the job table points to it any more. */
  lemma DeleteRunnerOutcome(s: State, r: RunnerId)
    ensures var t := Step(s, DeleteRunner(r));
            if r !in s.runners || (exists j :: 0 <= j < |s.jobs| && InProgressOn(s.jobs[j], r)) then t == s
            else
              && t.runners == s.runners - {r} && t.runs == s.runs && |t.jobs| == |s.jobs|
              && forall j :: 0 <= j < |s.jobs| ==>
                   && t.jobs[j].runner != Some(r)
                   && t.jobs[j] == s.jobs[j].(runner := t.jobs[j].runner)
                   && (s.jobs[j].runner != Some(r) ==> t.jobs[j].runner == s.jobs[j].runner)
                   && (s.jobs[j].runner == Some(r) ==> t.jobs[j].runner == None)
  {
    assert forall j: nat :: j < |s.jobs| ==> (Holds(s.jobs, r, j) <==> InProgressOn(s.jobs[j], r));
  }

  // ---------------------------------------------------------------- runs

  /** Cancelling a run cancels every unfinished job of it and nothing else; a run that ended otherwise is left alone. */
  lemma CancelRunOutcome(s: State, run: RunId, now: Time)
    ensures var t := Step(s, CancelRun(run, now));
            if run !in s.runs || (s.runs[run].status == RunCompleted && s.runs[run].conclusion != Some("cancelled"))
            then t == s
            else
              && t.runners == s.runners && |t.jobs| == |s.jobs| && t.runs - {run} == s.runs - {run}
              && run in t.runs && t.runs[run] == Run(s.runs[run].repo, RunCompleted, Some("cancelled"))
              && forall j :: 0 <= j < |s.jobs| ==>
                   if s.jobs[j].runId == run && s.jobs[j].status != Completed
                   then CancelledNow(s.jobs[j], t.jobs[j], now) else t.jobs[j] == s.jobs[j]
  {
  }

  /** A job as a new run starts it: without a runner, and finished only if its condition already skips it. */
  predicate StartedAs(n: NewJob, run: RunId, b: Job) {
    && b.runId == run && b.labels == n.labels && b.createdAt == n.createdAt
    && b.runner == None && b.runnerName == None && b.startedAt == None && |b.steps| == |n.steps|
    && match n.start
       case StartWaiting => b.status == Waiting && b.conclusion == None && b.completedAt == None && b.steps == n.steps
       case StartQueued => b.status == Queued && b.conclusion == None && b.completedAt == None && b.steps == n.steps
       case StartSkipped(at) =>
         && b.status == Completed && b.conclusion == Some("skipped") && b.completedAt == Some(at)
         && forall i :: 0 <= i < |n.steps| ==> SkippedStep(n.steps[i], b.steps[i])
  }

  /**
  A new run adds its jobs after those there are, and stops the unfinished runs of its group with their
  unfinished jobs; the rest is left to the scheduler, which is called only when some new job is skipped.
  */
  lemma CreateRunOutcome(s: State, run: RunId, repo: RepoId, newJobs: seq<NewJob>, group: set<RunId>, now: Time)
    ensures var t := Step(s, CreateRun(run, repo, newJobs, group, now, []));
            if run in s.runs then t == s
            else
              && t.runners == s.runners
              && t.runs.Keys == s.runs.Keys + {run} && t.runs[run] == Run(repo, RunQueued, None)
              && (forall k :: k in s.runs ==>
                    t.runs[k] == if k in group && s.runs[k].status != RunCompleted
                      then Run(s.runs[k].repo, RunCompleted, Some("cancelled")) else s.runs[k])
              && |t.jobs| == |s.jobs| + |newJobs|
              && (forall i :: 0 <= i < |newJobs| ==> StartedAs(newJobs[i], run, t.jobs[|s.jobs| + i]))
              && forall j :: 0 <= j < |s.jobs| ==>
                   var k := s.jobs[j].runId;
                   if k in s.runs && k in group && s.runs[k].status != RunCompleted && s.jobs[j].status != Completed
                   then CancelledNow(s.jobs[j], t.jobs[j], now) else t.jobs[j] == s.jobs[j]
    ensures forall after: seq<Dispatch> ::
              After(s, CreateRun(run, repo, newJobs, group, now, after))
                == if run !in s.runs && exists i :: 0 <= i < |newJobs| && newJobs[i].start.StartSkipped?
                  then after else []
  {
  }

  // ---------------------------------------------------------------- timelines

  /** A record names a step by either number it carries, whatever the name; without them by a name that is not empty. */
  lemma NamesOutcome(record: TimelineRecord, step: StepRow)
    ensures record.order == Some(step.number) || record.stepNumber == Some(step.number) ==> Names(record, step)
    ensures record.order == None && record.stepNumber == None ==>
              (Names(record, step) <==> record.name != "" && record.name == step.name)
    ensures record.name != step.name && Names(record, step) ==>
              record.order == Some(step.number) || record.stepNumber == Some(step.number)
    ensures record.name == "" && Names(record, step) ==>
              record.order == Some(step.number) || record.stepNumber == Some(step.number)
  {
  }

  /** What a record reports of a step it names: a status for its state, a conclusion for its result, all else kept. */
  lemma ReportedOutcome(record: TimelineRecord, step: StepRow)
    ensures var b := Reported(record, step);
            && SameStep(step, b) && b.completedAt == step.completedAt && b.message == step.message
            && b.status == (if record.state == None then step.status
                 else if record.state.value == "Completed" then Some("completed")
                   else if record.state.value == "InProgress" then Some("in_progress")
                     else if record.state.value == "Pending" then Some("queued")
                       else record.state)
            && (record.result == None ==> b.conclusion == step.conclusion)
            && (record.result.Some? ==> b.conclusion == Some(ConclusionOf(record.result.value)))
  {
  }

  /** A timeline changes one job's steps only, by its records one after the other. */
  lemma TimelineOutcome(s: State, j: nat, records: seq<TimelineRecord>)
    ensures var t := Step(s, Timeline(j, records));
            if j >= |s.jobs| then t == s
            else t == s.(jobs := s.jobs[j := s.jobs[j].(steps := ApplyRecords(records, s.jobs[j].steps))])
  {
  }
}
