/**
The job protocol of the Actions service as a transition system.

A `State` holds the job, runner and run tables.  Every request handler, up to its commit, is one
`Event`; `Step` is what the handler does to the tables, and a request the handler refuses (no such
row, wrong owner, already finished) leaves them as they are.  What the model cannot compute - the
clock, the steps a runner reports, the choice the scheduler makes when it dispatches - is carried
by the event.
*/
module ActionsModel {
  import opened Wrappers
  import opened ResultCodes

  type Time = int
  type RunnerId = nat
  type RunId = nat
  type RepoId = nat

  /** Both thresholds are settings, in seconds; no value is assumed of either. */
  const STALE_THRESHOLD: int
  const CLAIM_ACK: int

  const LOST_RUNNER_MESSAGE: string :=
    "The self-hosted runner lost communication with the server. Verify the "
    + "machine is running and has a healthy network connection. Anything in "
    + "your workflow that terminates the runner process, starves it for CPU or "
    + "memory, or blocks its network access can cause this error."

  datatype JobStatus = Waiting | Queued | InProgress | Completed
  datatype RunnerStatus = Online | Busy | Offline
  datatype RunStatus = RunQueued | RunInProgress | RunCompleted

  /** One entry of a job's JSON step list. A runner may report any text as a status. */
  datatype StepRow = StepRow(
    number: int,
    name: string,
    status: Option<string>,
    conclusion: Option<string>,
    completedAt: Option<Time>,
    message: Option<string>)

  datatype Job = Job(
    runId: RunId,
    labels: set<string>,
    createdAt: Time,
    status: JobStatus,
    conclusion: Option<string>,
    runner: Option<RunnerId>,
    runnerName: Option<string>,
    startedAt: Option<Time>,
    completedAt: Option<Time>,
    steps: seq<StepRow>)

  datatype Runner = Runner(
    name: string,
    labels: set<string>,
    repo: Option<RepoId>,
    status: RunnerStatus,
    busy: bool,
    lastHeartbeat: Option<Time>)

  datatype Run = Run(repo: RepoId, status: RunStatus, conclusion: Option<string>)

  /** Job ids are positions in the table: no request modelled here deletes a job row. */
  datatype State = State(jobs: seq<Job>, runners: map<RunnerId, Runner>, runs: map<RunId, Run>)

  /**
  One call of the scheduler after a job ended.  It may promote or skip waiting jobs, cancel jobs
  a promoted one supersedes, and move runs along; which ones is decided by expressions that are
  not part of this model.
  */
  datatype Dispatch = Dispatch(
    promoted: map<nat, seq<StepRow>>,
    skipped: map<nat, seq<StepRow>>,
    superseded: set<nat>,
    runOutcomes: map<RunId, (RunStatus, Option<string>)>,
    now: Time)

  /** A new job waits for the jobs it needs, is queued, or has a condition that already skips it. */
  datatype Start = StartWaiting | StartQueued | StartSkipped(at: Time)

  datatype NewJob = NewJob(labels: set<string>, createdAt: Time, start: Start, steps: seq<StepRow>)

  /** A timeline record: the step it names, and what it reports about it. */
  datatype TimelineRecord = TimelineRecord(
    order: Option<int>,
    stepNumber: Option<int>,
    name: string,
    state: Option<string>,
    result: Option<ResultCode>)

  datatype Event =
    | CreateRun(run: RunId, repo: RepoId, newJobs: seq<NewJob>, group: set<RunId>, now: Time, after: seq<Dispatch>)
    | RegisterNew(r: RunnerId, name: string, labels: set<string>, scope: Option<RepoId>, now: Time)
    | Reregister(r: RunnerId, labels: set<string>, now: Time, after: seq<Dispatch>)
    | UpdateAgent(r: RunnerId, name: string, labels: set<string>, now: Time)
    | Heartbeat(r: RunnerId, now: Time)
    | PollMessages(r: RunnerId, now: Time)
    | CloseSession(r: RunnerId)
    | Sweep(now: Time, ackNow: Time, after: seq<Dispatch>)
    | ClaimCustom(r: RunnerId, labels: set<string>, j: nat, now: Time)
    | ClaimUpstream(r: RunnerId, j: nat, now: Time)
    | Progress(r: RunnerId, j: nat, steps: Option<seq<StepRow>>)
    | CompleteCustom(r: RunnerId, j: nat, conclusion: string, steps: Option<seq<StepRow>>, now: Time,
                     after: seq<Dispatch>)
    | CompleteUpstream(r: RunnerId, j: nat, result: ResultCode, now: Time, after: seq<Dispatch>)
    | CompleteRequest(r: RunnerId, j: nat, sent: Option<ResultCode>, now: Time, after: seq<Dispatch>)
    | Timeline(j: nat, records: seq<TimelineRecord>)
    | OperatorRequeue(j: nat)
    | OperatorFail(j: nat, now: Time, after: seq<Dispatch>)
    | CancelRun(run: RunId, now: Time)
    | DeleteRunner(r: RunnerId)

  // ---------------------------------------------------------------- steps of one job

  /** No runner has touched the step: its status is null or still "queued". */
  predicate Untouched(step: StepRow) {
    step.status == None || step.status == Some("queued")
  }

  predicate Started(steps: seq<StepRow>) {
    exists i :: 0 <= i < |steps| && !Untouched(steps[i])
  }

  function ResetStep(step: StepRow): StepRow {
    step.(status := Some("queued"), conclusion := None)
  }

  function ResetSteps(steps: seq<StepRow>): (r: seq<StepRow>) {
    seq(|steps|, i requires 0 <= i < |steps| => ResetStep(steps[i]))
  }

  function LostStep(step: StepRow, now: Time): StepRow {
    if step.status == Some("in_progress") then
      step.(status := Some("completed"), conclusion := Some("failure"), completedAt := Some(now),
            message := Some(LOST_RUNNER_MESSAGE))
    else if Untouched(step) then
      step.(status := Some("completed"), conclusion := Some("skipped"))
    else
      step
  }

  function LostSteps(steps: seq<StepRow>, now: Time): (r: seq<StepRow>) {
    seq(|steps|, i requires 0 <= i < |steps| => LostStep(steps[i], now))
  }

  function Requeued(job: Job): Job {
    job.(status := Queued, runner := None, runnerName := None, startedAt := None,
         steps := ResetSteps(job.steps))
  }

  /** What becomes of a job whose runner is gone. */
  function Lost(job: Job, now: Time): Job {
    if Started(job.steps) then
      job.(steps := LostSteps(job.steps, now), status := Completed, conclusion := Some("failure"),
           completedAt := Some(now))
    else
      Requeued(job)
  }

  function FinishedStep(step: StepRow, conclusion: string): StepRow {
    if step.status == Some("completed") then step
    else step.(status := Some("completed"),
               conclusion := Some(if conclusion != "cancelled" then conclusion else "skipped"))
  }

  function FinishedSteps(steps: seq<StepRow>, conclusion: string): (r: seq<StepRow>) {
    seq(|steps|, i requires 0 <= i < |steps| => FinishedStep(steps[i], conclusion))
  }

  predicate Names(record: TimelineRecord, step: StepRow) {
    || record.order == Some(step.number)
    || record.stepNumber == Some(step.number)
    || (record.name != "" && record.name == step.name)
  }

  function Reported(record: TimelineRecord, step: StepRow): StepRow {
    var s := if record.state.Some? then step.(status := Some(StateToStatus(record.state.value))) else step;
    if record.result.Some? then s.(conclusion := Some(ConclusionOf(record.result.value))) else s
  }

  /** A record changes the first step it names, and no other. */
  function ApplyRecord(record: TimelineRecord, steps: seq<StepRow>): (r: seq<StepRow>)
    ensures |r| == |steps|
  {
    if steps == [] then []
    else if Names(record, steps[0]) then [Reported(record, steps[0])] + steps[1..]
    else [steps[0]] + ApplyRecord(record, steps[1..])
  }

  function ApplyRecords(records: seq<TimelineRecord>, steps: seq<StepRow>): (r: seq<StepRow>)
    ensures |r| == |steps|
  {
    if records == [] then steps else ApplyRecords(records[1..], ApplyRecord(records[0], steps))
  }

  // ---------------------------------------------------------------- questions about a state

  predicate Holds(jobs: seq<Job>, r: RunnerId, j: nat) {
    j < |jobs| && jobs[j].status == InProgress && jobs[j].runner == Some(r)
  }

  predicate HoldsAny(jobs: seq<Job>, r: RunnerId) {
    exists j :: 0 <= j < |jobs| && Holds(jobs, r, j)
  }

  /** The job lookup of the owner-checked routes. */
  predicate Owns(jobs: seq<Job>, r: RunnerId, j: nat) {
    j < |jobs| && jobs[j].runner == Some(r)
  }

  function RequiredLabels(job: Job): set<string> {
    if job.labels == {} then {"self-hosted"} else job.labels
  }

  predicate InScope(s: State, r: RunnerId, job: Job)
    requires r in s.runners
  {
    && job.runId in s.runs
    && (s.runners[r].repo == None || s.runners[r].repo == Some(s.runs[job.runId].repo))
  }

  predicate CustomEligible(s: State, r: RunnerId, labels: set<string>, j: nat)
    requires r in s.runners
  {
    && j < |s.jobs|
    && s.jobs[j].status == Queued
    && InScope(s, r, s.jobs[j])
    && s.runs[s.jobs[j].runId].status != RunCompleted
    && RequiredLabels(s.jobs[j]) <= labels
  }

  predicate UpstreamEligible(s: State, r: RunnerId, j: nat)
    requires r in s.runners
  {
    && j < |s.jobs|
    && s.jobs[j].status == Queued
    && s.jobs[j].runner == None
    && InScope(s, r, s.jobs[j])
    && RequiredLabels(s.jobs[j]) <= s.runners[r].labels
  }

  predicate CustomChoice(s: State, r: RunnerId, labels: set<string>, j: nat)
    requires r in s.runners
  {
    && CustomEligible(s, r, labels, j)
    && forall i :: 0 <= i < |s.jobs| && CustomEligible(s, r, labels, i) ==>
         s.jobs[j].createdAt <= s.jobs[i].createdAt
  }

  predicate UpstreamChoice(s: State, r: RunnerId, j: nat)
    requires r in s.runners
  {
    && UpstreamEligible(s, r, j)
    && forall i :: 0 <= i < |s.jobs| && UpstreamEligible(s, r, i) ==>
         s.jobs[j].createdAt <= s.jobs[i].createdAt
  }

  predicate Cancelled(job: Job) {
    job.status == Completed && job.conclusion == Some("cancelled")
  }

  predicate StaleHeartbeat(runner: Runner, now: Time) {
    runner.lastHeartbeat.Some? && runner.lastHeartbeat.value < now - STALE_THRESHOLD
  }

  /** The job's runner has stopped heartbeating while the job is in progress. */
  predicate StaleJob(s: State, job: Job, now: Time) {
    && job.status == InProgress
    && job.runner.Some?
    && job.runner.value in s.runners
    && StaleHeartbeat(s.runners[job.runner.value], now)
  }

  /** The job was handed out a while ago and no step has moved. */
  predicate Unacknowledged(job: Job, now: Time) {
    && job.status == InProgress
    && job.startedAt.Some?
    && job.startedAt.value < now - CLAIM_ACK
    && !Started(job.steps)
  }

  /** The status a runner listing reports. */
  function EffectiveStatus(runner: Runner, now: Time): RunnerStatus {
    if runner.status == Offline || runner.lastHeartbeat == None then Offline
    else if runner.lastHeartbeat.value < now - STALE_THRESHOLD then Offline
    else runner.status
  }

  // ---------------------------------------------------------------- the scheduler

  function DispatchedJob(job: Job, j: nat, d: Dispatch): Job {
    if job.status == Waiting && j in d.promoted then
      job.(status := Queued, steps := d.promoted[j])
    else if job.status == Waiting && j in d.skipped then
      job.(status := Completed, conclusion := Some("skipped"), completedAt := Some(d.now),
           steps := d.skipped[j])
    else if (job.status == Queued || job.status == InProgress) && j in d.superseded then
      job.(status := Completed, conclusion := Some("cancelled"), completedAt := Some(d.now))
    else
      job
  }

  function DispatchOnce(s: State, d: Dispatch): State {
    s.(jobs := seq(|s.jobs|, i requires 0 <= i < |s.jobs| => DispatchedJob(s.jobs[i], i, d)),
       runs := map k | k in s.runs ::
         if k in d.runOutcomes then s.runs[k].(status := d.runOutcomes[k].0, conclusion := d.runOutcomes[k].1)
         else s.runs[k])
  }

  function DispatchAll(s: State, ds: seq<Dispatch>): State
    decreases |ds|
  {
    if ds == [] then s else DispatchAll(DispatchOnce(s, ds[0]), ds[1..])
  }

  // ---------------------------------------------------------------- handlers

  function SkippedSteps(steps: seq<StepRow>): seq<StepRow> {
    seq(|steps|, i requires 0 <= i < |steps| => steps[i].(status := Some("completed"), conclusion := Some("skipped")))
  }

  function CreatedJob(run: RunId, n: NewJob): Job {
    match n.start
    case StartWaiting => Job(run, n.labels, n.createdAt, Waiting, None, None, None, None, None, n.steps)
    case StartQueued => Job(run, n.labels, n.createdAt, Queued, None, None, None, None, None, n.steps)
    case StartSkipped(at) =>
      Job(run, n.labels, n.createdAt, Completed, Some("skipped"), None, None, None, Some(at), SkippedSteps(n.steps))
  }

  predicate CreatesSkipped(newJobs: seq<NewJob>) {
    exists i :: 0 <= i < |newJobs| && newJobs[i].start.StartSkipped?
  }

  /** The unfinished runs of the concurrency group, which a new run that cancels in progress stops. */
  function StoppedRuns(s: State, group: set<RunId>): set<RunId> {
    set k | k in s.runs && k in group && s.runs[k].status != RunCompleted
  }

  function DoCreateRun(s: State, run: RunId, repo: RepoId, newJobs: seq<NewJob>, group: set<RunId>, now: Time): State {
    if run in s.runs then s
    else
      var stopped := StoppedRuns(s, group);
      var before := seq(|s.jobs|, i requires 0 <= i < |s.jobs| =>
                       if s.jobs[i].runId in stopped then CancelledJob(s.jobs[i], s.jobs[i].runId, now) else s.jobs[i]);
      var ended := map k | k in s.runs ::
                     if k in stopped then s.runs[k].(status := RunCompleted, conclusion := Some("cancelled"))
                       else s.runs[k];
      s.(runs := ended[run := Run(repo, RunQueued, None)],
         jobs := before + seq(|newJobs|, i requires 0 <= i < |newJobs| => CreatedJob(run, newJobs[i])))
  }

  function DoRegisterNew(s: State, r: RunnerId, name: string, labels: set<string>, scope: Option<RepoId>,
                         now: Time): State {
    if r in s.runners then s
    else s.(runners := s.runners[r := Runner(name, labels, scope, Online, false, Some(now))])
  }

  function ReleasedJobs(jobs: seq<Job>, r: RunnerId, now: Time): (res: seq<Job>)
    ensures |res| == |jobs|
  {
    seq(|jobs|, i requires 0 <= i < |jobs| => if Holds(jobs, r, i) then Lost(jobs[i], now) else jobs[i])
  }

  predicate ReleaseFails(jobs: seq<Job>, r: RunnerId) {
    exists i :: 0 <= i < |jobs| && Holds(jobs, r, i) && Started(jobs[i].steps)
  }

  function DoReregister(s: State, r: RunnerId, labels: set<string>, now: Time): State {
    if r !in s.runners then s
    else s.(jobs := ReleasedJobs(s.jobs, r, now),
            runners := s.runners[r := s.runners[r].(status := Online, labels := labels, busy := false,
                                                    lastHeartbeat := Some(now))])
  }

  function DoUpdateAgent(s: State, r: RunnerId, name: string, labels: set<string>, now: Time): State {
    if r !in s.runners then s
    else s.(runners := s.runners[r := s.runners[r].(
              name := name,
              labels := if labels == {} then s.runners[r].labels else labels,
              status := Online, lastHeartbeat := Some(now))])
  }

  function DoHeartbeat(s: State, r: RunnerId, now: Time): State {
    if r !in s.runners then s
    else s.(runners := s.runners[r := s.runners[r].(status := Online, lastHeartbeat := Some(now))])
  }

  function DoPollMessages(s: State, r: RunnerId, now: Time): State {
    if r !in s.runners then s
    else s.(runners := s.runners[r := s.runners[r].(lastHeartbeat := Some(now))])
  }

  function DoCloseSession(s: State, r: RunnerId): State {
    if r !in s.runners then s
    else s.(runners := s.runners[r := s.runners[r].(status := Offline, busy := false)])
  }

  function SettledJob(s: State, job: Job, now: Time): Job {
    if StaleJob(s, job, now) then Lost(job, now) else job
  }

  function SettledRunner(s: State, r: RunnerId, now: Time): Runner
    requires r in s.runners
  {
    if StaleHeartbeat(s.runners[r], now) && HoldsAny(s.jobs, r)
    then s.runners[r].(status := Offline, busy := false) else s.runners[r]
  }

  /** First half of the sweep: jobs of runners that stopped heartbeating are settled. */
  function StaleSettled(s: State, now: Time): (r: State)
    ensures |r.jobs| == |s.jobs| && r.runners.Keys == s.runners.Keys
  {
    s.(jobs := seq(|s.jobs|, i requires 0 <= i < |s.jobs| => SettledJob(s, s.jobs[i], now)),
       runners := map r | r in s.runners :: SettledRunner(s, r, now))
  }

  /** Second half: claims never acted on go back to the queue; their runners are not touched. */
  function AckSettled(s: State, now: Time): (r: State)
    ensures |r.jobs| == |s.jobs| && r.runners == s.runners
  {
    s.(jobs := seq(|s.jobs|, i requires 0 <= i < |s.jobs| =>
                     if Unacknowledged(s.jobs[i], now) then Requeued(s.jobs[i]) else s.jobs[i]))
  }

  function Settled(s: State, now: Time, ackNow: Time): (r: State)
    ensures |r.jobs| == |s.jobs| && r.runners.Keys == s.runners.Keys
  {
    AckSettled(StaleSettled(s, now), ackNow)
  }

  predicate SweepFails(s: State, now: Time) {
    exists i :: 0 <= i < |s.jobs| && StaleJob(s, s.jobs[i], now) && Started(s.jobs[i].steps)
  }

  function ClaimedJob(job: Job, r: RunnerId, name: string, now: Time): Job {
    job.(status := InProgress, runner := Some(r), runnerName := Some(name), startedAt := Some(now))
  }

  function Claimed(s: State, r: RunnerId, j: nat, now: Time): State
    requires r in s.runners && j < |s.jobs|
  {
    s.(jobs := s.jobs[j := ClaimedJob(s.jobs[j], r, s.runners[r].name, now)],
       runners := s.runners[r := s.runners[r].(busy := true, status := Busy)],
       runs := var k := s.jobs[j].runId;
               if k in s.runs && s.runs[k].status == RunQueued
               then s.runs[k := s.runs[k].(status := RunInProgress)] else s.runs)
  }

  function DoClaimCustom(s: State, r: RunnerId, labels: set<string>, j: nat, now: Time): State {
    if r in s.runners && CustomChoice(s, r, labels, j) then Claimed(s, r, j, now) else s
  }

  /** The upstream runner keeps polling while it works; a busy one is given nothing. */
  predicate RefusesClaims(runner: Runner) {
    runner.busy || runner.status == Busy
  }

  function DoClaimUpstream(s: State, r: RunnerId, j: nat, now: Time): State {
    if r in s.runners && !RefusesClaims(s.runners[r]) && UpstreamChoice(s, r, j)
    then Claimed(s, r, j, now) else s
  }

  function DoProgress(s: State, r: RunnerId, j: nat, steps: Option<seq<StepRow>>): State {
    if r in s.runners && Owns(s.jobs, r, j) && steps.Some?
    then s.(jobs := s.jobs[j := s.jobs[j].(steps := steps.value)]) else s
  }

  function Freed(s: State, r: RunnerId): State
    requires r in s.runners
  {
    s.(runners := s.runners[r := s.runners[r].(busy := false, status := Online)])
  }

  function ConcludedJob(job: Job, conclusion: string, now: Time, steps: seq<StepRow>): Job {
    job.(status := Completed, conclusion := Some(conclusion), completedAt := Some(now), steps := steps)
  }

  function DoCompleteCustom(s: State, r: RunnerId, j: nat, conclusion: string, steps: Option<seq<StepRow>>,
                            now: Time): State {
    if r !in s.runners || !Owns(s.jobs, r, j) then s
    else if Cancelled(s.jobs[j]) then Freed(s, r)
    else
      var done := ConcludedJob(s.jobs[j], conclusion, now,
                               if steps.Some? then steps.value else s.jobs[j].steps);
      Freed(s.(jobs := s.jobs[j := done]), r)
  }

  function UpstreamConcluded(job: Job, result: ResultCode, now: Time): Job {
    ConcludedJob(job, ConclusionOf(result), now,
                 if ConclusionOf(result) == "success" then FinishedSteps(job.steps, "success") else job.steps)
  }

  /** The route that names any job: the job need not be the caller's. */
  function DoCompleteUpstream(s: State, r: RunnerId, j: nat, result: ResultCode, now: Time): State {
    if r !in s.runners || j >= |s.jobs| then s
    else Freed(s.(jobs := s.jobs[j := UpstreamConcluded(s.jobs[j], result, now)]), r)
  }

  /** The job-request routes, which look the job up among the caller's own; without a result they only acknowledge. */
  function DoCompleteRequest(s: State, r: RunnerId, j: nat, result: Option<ResultCode>, now: Time): State {
    if r in s.runners && Owns(s.jobs, r, j) && result.Some? then DoCompleteUpstream(s, r, j, result.value, now) else s
  }

  function DoTimeline(s: State, j: nat, records: seq<TimelineRecord>): State {
    if j >= |s.jobs| then s
    else s.(jobs := s.jobs[j := s.jobs[j].(steps := ApplyRecords(records, s.jobs[j].steps))])
  }

  function DoOperatorRequeue(s: State, j: nat): State {
    if j >= |s.jobs| || s.jobs[j].status == Completed then s
    else s.(jobs := s.jobs[j := Requeued(s.jobs[j])])
  }

  function DoOperatorFail(s: State, j: nat, now: Time): State {
    if j >= |s.jobs| || s.jobs[j].status != InProgress then s
    else s.(jobs := s.jobs[j := Lost(s.jobs[j], now)])
  }

  function CancelledJob(job: Job, run: RunId, now: Time): Job {
    if job.runId == run && job.status != Completed then
      job.(status := Completed, conclusion := Some("cancelled"), completedAt := Some(now))
    else job
  }

  function DoCancelRun(s: State, run: RunId, now: Time): State {
    if run !in s.runs then s
    else if s.runs[run].status == RunCompleted && s.runs[run].conclusion != Some("cancelled") then s
    else s.(jobs := seq(|s.jobs|, i requires 0 <= i < |s.jobs| => CancelledJob(s.jobs[i], run, now)),
            runs := s.runs[run := s.runs[run].(status := RunCompleted, conclusion := Some("cancelled"))])
  }

  function DetachedJob(job: Job, r: RunnerId): Job {
    if job.runner == Some(r) then job.(runner := None) else job
  }

  function DoDeleteRunner(s: State, r: RunnerId): State {
    if r !in s.runners || HoldsAny(s.jobs, r) then s
    else s.(jobs := seq(|s.jobs|, i requires 0 <= i < |s.jobs| => DetachedJob(s.jobs[i], r)),
            runners := s.runners - {r})
  }

  /** What a request writes itself, before any call of the scheduler. */
  function Effect(s: State, e: Event): State {
    match e
    case CreateRun(run, repo, newJobs, group, now, _) => DoCreateRun(s, run, repo, newJobs, group, now)
    case RegisterNew(r, name, labels, scope, now) => DoRegisterNew(s, r, name, labels, scope, now)
    case Reregister(r, labels, now, _) => DoReregister(s, r, labels, now)
    case UpdateAgent(r, name, labels, now) => DoUpdateAgent(s, r, name, labels, now)
    case Heartbeat(r, now) => DoHeartbeat(s, r, now)
    case PollMessages(r, now) => DoPollMessages(s, r, now)
    case CloseSession(r) => DoCloseSession(s, r)
    case Sweep(now, ackNow, _) => Settled(s, now, ackNow)
    case ClaimCustom(r, labels, j, now) => DoClaimCustom(s, r, labels, j, now)
    case ClaimUpstream(r, j, now) => DoClaimUpstream(s, r, j, now)
    case Progress(r, j, steps) => DoProgress(s, r, j, steps)
    case CompleteCustom(r, j, conclusion, steps, now, _) => DoCompleteCustom(s, r, j, conclusion, steps, now)
    case CompleteUpstream(r, j, result, now, _) => DoCompleteUpstream(s, r, j, result, now)
    case CompleteRequest(r, j, result, now, _) => DoCompleteRequest(s, r, j, result, now)
    case Timeline(j, records) => DoTimeline(s, j, records)
    case OperatorRequeue(j) => DoOperatorRequeue(s, j)
    case OperatorFail(j, now, _) => DoOperatorFail(s, j, now)
    case CancelRun(run, now) => DoCancelRun(s, run, now)
    case DeleteRunner(r) => DoDeleteRunner(s, r)
  }

  /** The scheduler calls a request ends with: only a request that ended a job makes any. */
  function After(s: State, e: Event): seq<Dispatch> {
    match e
    case Reregister(r, _, _, after) => if r in s.runners && ReleaseFails(s.jobs, r) then after else []
    case Sweep(now, _, after) => if SweepFails(s, now) then after else []
    case CompleteCustom(r, j, _, _, _, after) =>
      if r in s.runners && Owns(s.jobs, r, j) && !Cancelled(s.jobs[j]) then after else []
    case CompleteUpstream(r, j, _, _, after) => if r in s.runners && j < |s.jobs| then after else []
    case CompleteRequest(r, j, result, _, after) =>
      if r in s.runners && Owns(s.jobs, r, j) && result.Some? then after else []
    case CreateRun(run, _, newJobs, _, _, after) => if run !in s.runs && CreatesSkipped(newJobs) then after else []
    case OperatorFail(j, _, after) =>
      if j < |s.jobs| && s.jobs[j].status == InProgress && Started(s.jobs[j].steps) then after else []
    case _ => []
  }

  /** One committed request. */
  function Step(s: State, e: Event): State {
    DispatchAll(Effect(s, e), After(s, e))
  }

  /** A run of requests, in commit order. */
  function RunAll(s: State, es: seq<Event>): State
    decreases |es|
  {
    if es == [] then s else RunAll(Step(s, es[0]), es[1..])
  }
}
