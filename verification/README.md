# Verified model of the emulator's protocols and transformations

A Dafny model of the parts of the GitHub emulator where a mistake is expensive: jobs and runners,
git refs and the tables that shadow them, review threads, and the text and list transformations
whose fast form has to mean the same as a simple one. `dafny verify dfyconfig.toml` checks it all.

## What is modelled

**Actions jobs** (`ActionsModel`, `ActionsInvariants`, `ActionsOutcomes`, `ActionsSweep`, `ActionsClaims`,
`ActionsFencing`, `ActionsService`, `StepTracking`). A transition system over jobs, runners and runs.
Each handler, up to its commit, is one event: registration and re-registration, heartbeats, both
claim protocols, progress, completion, timeline reports, the stale sweep, operator actions,
cancellation and guarded runner deletion. `ActionsOutcomes` says what each leaves in the rows.
`ActionsService.Service` is the imperative form, a class
with one method per handler, each proved equal to its event. `StepTracking` models the job's JSON
step list as mutable dictionaries under a change tracker that compares values.

**Branches** (`CommitGraph`, `CommitFiles`, `RefRaces`, `BranchRecording`, `BranchMirror`, `BranchOutcomes`,
`BranchStore`, `BranchSync`, `BranchRefs`). A commit DAG with an atomic compare and swap of refs; concurrent callers as
an interleaving of their read, check, swap and record steps; the branch table as an index of the refs,
HEAD and the null object name included; and the batched resolution of pull-request refs, down to how its
text output splits into lines.

**Review threads** (`ReviewThreads`). The reply relation as a forest, and the surgery a deletion does.

**Transformations** (`FormatExpression`, `Connections`, `FirstVisible`, `PatchSplit`, `LabelEvents`,
`DatabaseRetry`). Template text compiled to a `format()` call, Relay pagination, batched filtering,
splitting a patch, the label timeline beside the label set, and commit with retry.

`Wrappers`, `Integers`, `ResultCodes` and `Text` hold what these share.

## Where the code does less than it promises

For each of these a lemma gives the exact condition under which the promise holds; where it is not
plain from the condition, another gives an input on which it fails.

- A cancelled job stays completed, but an upstream completion replaces its conclusion; the custom
  protocol does not (`ActionsFencing.CancellationKeptIff`, `UpstreamCallbackUndoesCancellation`).
- A job failed because its runner was lost still names that runner, whose late report makes it a success
  (`ActionsFencing.ConclusionKeptIff`, `ConclusionStandsIff`, `LateReportUndoesFailure`).
- Every route that reuses a runner row is to settle what the row held; the agent update of a runner
  replacement does not, and renews the heartbeat (`ActionsClaims.ReuseReleasesIff`,
  `UpdatedAgentKeepsItsJobs`).
- The custom protocol gives a job to a runner that holds one, and a report about one job frees a runner
  that goes on holding another (`ActionsClaims.OneAtATimeKeptIff`).
- The acknowledgement rule requeues a claim but leaves its runner marked busy, and an upstream runner
  marked busy is handed nothing (`ActionsClaims.SweepStrandsIff`, `StrandedRunnerGetsNoJobIff`).
- The listing's status and the sweep are said to agree by construction; they differ on a session closed
  in mid-job (`ActionsSweep.ListingAgreesWithSweepIff`, `OnlyClosingMakesOfflineHolder`).
- A step status text the service does not know survives the settlement of a lost job
  (`ActionsInvariants.LostStepsAllFinishedIff`).
- `update_ref` on a branch it does not find swaps without comparing, and it looks its target up twice;
  either can rewind a branch (`RefRaces.HistoryIsAppendOnlyIff`, `UnguardedUpdateLosesACommit`,
  `MovedTargetLosesACommit`).
- A created review comment may name any parent (`ReviewThreads.CreationKeepsForestIff`).
- Pagination differs from the Relay algorithm on crossed cursors (`Connections.BuildIsRelayIff`).
- Calls that move a branch in one order may record it in the other, and then the row stays at a commit
  the branch has left (`BranchRecording.RowAgreesIff`, `CrossedRecordsDisagree`).
- The batch form of ref resolution asks git differently from the single form: the full name of an absent
  object and an exclusion `^name` resolve alone and not in the batch, a blank name that does not resolve
  reads as the commit `missing`, and a name loses the carriage return at its end
  (`BranchRefs.BatchEqualsSingleIff`, `LookUpsDifferIff`, `AbsentNameIsMisread`, `ExclusionIsMisread`,
  `BlankRefIsMisread`, `TrailingReturnIsMisread`).
- `create_ref` given `heads/x` writes that literal ref but records branch `x`; given `HEAD` it moves the
  default branch and records nothing; the null object name deletes a branch and is recorded as its
  commit; and the table stores an abbreviated object name as given
  (`BranchMirror.StepKeepsAgreementIff`, `CreateOfHeadMovesLockedBranch`, `NullNameDeletesLockedBranch`).
- Creating a ref over a locked branch, by its name or as `HEAD`, moves or deletes it: create does not look
  at protection (`BranchMirror.SealedBranchStaysIff`, `CreateMovesLockedBranch`).
- After a sync, a row shadowed by a later row of the same name is neither corrected nor removed
  (`BranchSync.SyncRestoresMirrorIff`).
- An issue update that repeats a known label adds two rows for it, after which adding or removing that
  label fails (`LabelEvents.OneRowPerLabelKeptIff`, `RepeatedRowBlocksItsLabel`).
- A parsed patch misses an added line whose text begins `++` and a removed one whose text begins `--`,
  and takes an added text that begins `++ b/` for the file's name (`PatchSplit.AdditionsExactIff`,
  `DeletionsExactIff`, `NameExactIff`, `CommentsAreMisread`).
- It names a file after its path only if the path needs no quotes and, when it has text to compare, no
  space either; without text to compare a path that holds ` b/` is cut, unless it is a rename
  (`PatchSplit.HeadNameIsPathIff`, `RecordIsNamedAfterPathIff`).
- A compiled template's arguments are found again only if each expression stands as one argument
  (`FormatExpression.ArgumentsReadBackIff`).

## Model

| member | source | states |
|---|---|---|
| ActionsInvariants.RunKeepsInv | src/app/api/actions_dispatch.py:170-301 | over every sequence of requests: a waiting or queued job has no runner and no start time, an in-progress job has a start time and a registered runner, no job row disappears, and a completed job stays completed |
| ActionsInvariants.StepKeepsInv | src/app/api/actions_dispatch.py:499-513 | the same for one request with the scheduler calls it ends in |
| ActionsInvariants.StepFrame | src/app/api/actions_dispatch.py:285-290 | beyond its own writes a request changes job rows only as the scheduler may, and runner rows not at all |
| ActionsInvariants.LostJobSettlement | src/app/api/actions_dispatch.py:230-261 | a lost job fails exactly when a step had started; then order, count and finished steps are kept, the running step fails with the message, unstarted ones are skipped; otherwise every step is queued again |
| ActionsInvariants.LostStepsAllFinishedIff | src/app/api/actions_dispatch.py:250-256 | every step of a failed job ends finished exactly when every status was one the service writes |
| ActionsInvariants.UnknownStateSurvivesSettlement | src/app/api/actions_distributed_task.py:84-89 | a concrete report whose state stays unfinished in a job that fails |
| ActionsInvariants.RecordsKeepSteps | src/app/api/actions_distributed_task.py:844-881 | timeline records never add, drop, reorder or rename steps, and leave a step none of them names as it is |
| ActionsInvariants.RecordReachesFirstNamed | src/app/api/actions_distributed_task.py:864-878 | a record changes the first step it names and no other |
| ActionsInvariants.RecordsInOrder | src/app/api/actions_distributed_task.py:849-881 | records are applied in the order they come, so the last that reaches a step has the last word |
| ActionsOutcomes.EligibleIff | src/app/api/actions_dispatch.py:479-505 | a job is open to a claim exactly when it is queued, its declared labels all lie in the runner's ("self-hosted" when it declares none), its run is of the runner's repository when the runner has one, and, in the custom protocol, unfinished |
| ActionsOutcomes.TakesIff | src/app/api/actions_distributed_task.py:786-819 | a claim is granted exactly for an oldest open job, in the upstream protocol only to a row that says busy in neither way |
| ActionsOutcomes.ClaimOutcome | src/app/api/actions_distributed_task.py:815-826 | a granted claim makes that one job the runner's, in progress from now, marks the row busy and starts a queued run; any other changes nothing |
| ActionsOutcomes.ReregisterOutcome | src/app/api/actions_dispatch.py:264-282 | registering over a row: a held job with a step begun fails, its running step with the lost-runner message and its unstarted ones skipped; a held job without goes back on the queue with every step; any other job is left to the scheduler |
| ActionsOutcomes.SweepOutcome | src/app/api/actions_dispatch.py:170-219 | the same row by row for the two rules of the sweep, the thresholds in times |
| ActionsOutcomes.OperatorOutcome | src/app/api/admin_frontend.py:592-639 | the same for the operators' requeue and failure, and when each is refused |
| ActionsOutcomes.SchedulerFollowsIff | src/app/api/actions_dispatch.py:213-219 | a sweep, a registration and an operator's failure call the scheduler exactly when they ended a job |
| ActionsOutcomes.SchedulerFollowsReport | src/app/api/actions_dispatch.py:598-629 | so does every accepted completion, but that of a cancelled job in the custom protocol |
| ActionsOutcomes.DispatchOutcome | src/app/services/workflow_scheduler.py:90-117 | a scheduler call queues or skips waiting jobs and cancels superseded queued or running ones, as it is told, and changes no other |
| ActionsOutcomes.CompleteCustomOutcome | src/app/api/actions_dispatch.py:585-629 | only the job's own runner ends it, with the conclusion and the steps it sends; a cancelled job stays as it is; either way that runner, and no other, is free |
| ActionsOutcomes.CompleteUpstreamOutcome | src/app/api/actions_distributed_task.py:937-947 | any named job ends with the conclusion its result stands for, a success finishing its open steps, and the caller is free |
| ActionsOutcomes.ReportedRunnerIsServed | src/app/api/actions_distributed_task.py:944-946 | after any accepted completion the runner is not busy in either way and is listed online until its heartbeat grows old, and when a job is open to it a claim hands it an oldest one |
| ActionsOutcomes.FinishedOutcome | src/app/api/actions_distributed_task.py:924-934 | a step not finished ends with the conclusion, or skipped when that is cancelled; the others stay |
| ActionsOutcomes.RunnerRowOutcome | src/app/api/actions_dispatch.py:126-155 | what registration, re-registration, an agent update and a poll leave in the runner's row, and that they touch no other |
| ActionsOutcomes.DeleteRunnerOutcome | src/app/api/actions_runners.py:162-216 | refused exactly while a job of the runner is in progress; else the row goes, every job pointing to it points nowhere, and nothing else changes |
| ActionsOutcomes.CancelRunOutcome | src/app/services/workflow_scheduler.py:182-208 | every unfinished job of the run ends cancelled, its steps and holder as they were, and nothing else changes but the run; one that ended otherwise is left alone |
| ActionsOutcomes.CreateRunOutcome | src/app/services/workflow_service.py:894-1010 | a new run adds its jobs waiting, queued or skipped, and cancels the unfinished runs of its group with their unfinished jobs |
| ActionsOutcomes.ReportedOutcome | src/app/api/actions_distributed_task.py:84-89 | what a record's state and result make of a step it names: which words stand for which status, an unknown one kept |
| ResultCodes.ConclusionsOfResults | src/app/api/actions_distributed_task.py:50-78 | which numbers and words stand for success, cancelled and skipped; all else is a failure |
| ActionsSweep.SweepSettlesEachOnce | src/app/api/actions_dispatch.py:170-219 | no job is settled by both rules, and the returned count is the number of jobs settled |
| ActionsSweep.SweepLeavesNothingStale | src/app/api/actions_dispatch.py:175-184 | after the sweep and its scheduler calls no job sits in progress with a stale runner, and none is past the acknowledgement window unstarted |
| ActionsSweep.SweepIsIdempotent | src/app/api/actions_dispatch.py:170-219 | a second sweep at the same times settles nothing |
| ActionsSweep.SweepFrame | src/app/api/actions_dispatch.py:213-219 | jobs that neither rule settles change only through the scheduler |
| ActionsSweep.ListingAgreesWithSweepIff | src/app/api/actions_runners.py:54-78 | of a runner holding a job the listing says offline exactly when the sweep finds the job stale, unless its session was closed with a fresh heartbeat; what the sweep settles is listed offline before and after |
| ActionsSweep.RunKeepsHeartbeats | src/app/api/actions_dispatch.py:138-150 | over every run each registered runner has a heartbeat, so the listing's null case does not arise |
| ActionsSweep.OnlyClosingMakesOfflineHolder | src/app/api/actions_distributed_task.py:1026-1035 | a request makes a runner offline while it holds a job exactly when it closes the session of one that does |
| ActionsSweep.ClosedSessionIsNotSwept | src/app/api/actions_distributed_task.py:1015-1036 | a runner listed offline whose job the sweep leaves alone |
| ActionsClaims.OneAtATimeKeptIff | src/app/api/actions_distributed_task.py:781-819 | a request keeps a runner to one job, and busy while it holds it, exactly when it is not one of two kinds, both told from the tables and the request: a custom claim by a holder, or a report that frees a runner holding a job it neither ends nor has superseded |
| ActionsClaims.DisciplinedRunnerHoldsOneJob | src/app/api/actions_distributed_task.py:786-791 | over every run in which the runner claims through the upstream protocol, completes what it holds and closes only when idle, it never holds two jobs and holding one implies busy |
| ActionsClaims.HoldingsComeFromClaims | src/app/api/actions_distributed_task.py:815-818 | a runner holds a job after a request only if it held it before or claimed it in that request |
| ActionsClaims.ReregisteringHoldsNothing | src/app/api/actions_dispatch.py:126-137 | re-registering a row leaves it holding nothing |
| ActionsClaims.ReuseReleasesIff | src/app/api/actions_dispatch.py:264-276 | a request that reuses a runner row leaves it holding nothing exactly when it is a registration, or the row held nothing before |
| ActionsClaims.UpdatedAgentKeepsItsJobs | src/app/api/actions_distributed_task.py:465-491 | a replaced agent goes on holding its jobs, busy as before, and no sweep counts them as lost until the renewed heartbeat has grown old |
| ActionsClaims.SweptRunnerHoldsNothing | src/app/api/actions_dispatch.py:186-190 | a runner with a stale heartbeat holds nothing after a sweep |
| ActionsClaims.BusyIsClearedByReport | src/app/api/actions_distributed_task.py:945-946 | busy is cleared for a runner that holds a job only by a report of its own or its session closing |
| ActionsClaims.SweepStrandsIff | src/app/api/actions_dispatch.py:186-217 | a sweep leaves the runner of a held job busy with nothing exactly when the runner is not stale and the acknowledgement rule or the scheduler takes the job |
| ActionsClaims.StrandedStaysIff | src/app/api/actions_distributed_task.py:786-791 | such a runner stays so exactly when the request neither marks it free nor hands it a job; its own claims change nothing |
| ActionsClaims.StrandedRunnerGetsNoJobIff | src/app/api/actions_distributed_task.py:790-791 | over every run it stays busy and without a job throughout exactly when no request rescues it |
| ActionsFencing.ConclusionKeptIff | src/app/api/actions_dispatch.py:585-629 | a finished job stays finished under every request, and keeps its conclusion exactly when the request is not a completion with another one: of its named runner when it was not cancelled, or by the upstream routes |
| ActionsFencing.ConclusionStandsIff | src/app/api/actions_dispatch.py:598-610 | over every run the conclusion stands after each request exactly when no completion replaces it |
| ActionsFencing.LateReportUndoesFailure | src/app/api/actions_dispatch.py:608-610 | a job the sweep failed for a lost runner, which that runner's report then turns into a success |
| ActionsFencing.CancellationKeptIff | src/app/api/actions_dispatch.py:598-605 | a cancelled job stays completed under every request, and stays cancelled exactly when the request is not an upstream completion with another result |
| ActionsFencing.CancellationIsFinal | src/app/api/actions_dispatch.py:585-629 | over every run without an upstream completion of the job it stays completed and cancelled |
| ActionsFencing.UpstreamCallbackUndoesCancellation | src/app/api/actions_distributed_task.py:937-940 | the concrete late callback that turns cancelled into success |
| ActionsFencing.FormerHolderIsFenced | src/app/api/actions_dispatch.py:564-575 | a request of a runner that does not hold the job changes nothing, and only a claim makes it the holder |
| ActionsFencing.FormerHolderLeavesNoTrace | src/app/api/actions_dispatch.py:293-301 | a run with a former holder's requests ends in the same tables as the run without them |
| ActionsFencing.RequeueFences | src/app/api/admin_frontend.py:592-611 | a requeue makes its old holder such a runner |
| ActionsService.Service.Requeue | src/app/api/actions_dispatch.py:293-301 | the job is queued without a runner and every step with it, other rows untouched |
| ActionsService.Service.LoseJob | src/app/api/actions_dispatch.py:230-261 | the job fails, its running step with the message and its unstarted ones skipped, exactly when a step had begun, and then it returns true; else the job and every step are queued again |
| ActionsService.Service.SettleStale | src/app/api/actions_dispatch.py:172-190 | the loop over query rows settles exactly the stale jobs, their runners go offline, and the count is their number |
| ActionsService.Service.SettleUnacknowledged | src/app/api/actions_dispatch.py:197-212 | the second loop requeues exactly the unacknowledged claims and counts them |
| ActionsService.Service.RequeueStaleJobs | src/app/api/actions_dispatch.py:170-219 | equals the sweep event; returns the number of jobs settled |
| ActionsService.Service.ReleaseHeldJobs | src/app/api/actions_dispatch.py:264-282 | of the jobs the runner holds those with a step begun fail as lost and the others are queued again; no other row changes; the returned runs are those of the failed ones |
| ActionsService.Service.ReregisterRunner | src/app/api/actions_dispatch.py:126-137 | equals the re-registration event, and says of each job row what became of it |
| ActionsService.Service.RegisterRunner | src/app/api/actions_dispatch.py:138-155 | a new runner has the name, labels and repository given, is listed online exactly until its heartbeat grows old, holds nothing, may claim, and no other row changes |
| ActionsService.Service.RunnerHeartbeat | src/app/api/actions_dispatch.py:416-420 | for exactly the threshold after a heartbeat the runner is listed online and no job it holds counts as stale; other runners are untouched |
| ActionsService.Service.PollForJob | src/app/api/actions_dispatch.py:470-561 | claims a job exactly when one is open to the runner: its declared labels among those given, its run in reach and unfinished; then an oldest such |
| ActionsService.Service.UpdateJobProgress | src/app/api/actions_dispatch.py:564-581 | the job of the runner has the steps it reported, nothing else of it changed; without steps nothing changes |
| ActionsService.Service.CompleteJob | src/app/api/actions_dispatch.py:585-629 | the job has the conclusion and steps sent, or if cancelled stays as it is and the answer says so; the runner is online and not busy |
| ActionsService.Service.ClaimNextJob | src/app/api/actions_distributed_task.py:781-826 | hands out a job exactly when the row says busy in neither way and a job is open to the runner; then an oldest such |
| ActionsService.Service.DeleteSession | src/app/api/actions_distributed_task.py:1015-1036 | the runner is listed offline at every later time and would be given a job, while what it holds stays its own and goes stale no sooner than before |
| ActionsService.Service.CompleteQueuedSteps | src/app/api/actions_distributed_task.py:924-934 | steps not finished end finished with the conclusion, or skipped when it is cancelled |
| ActionsService.Service.CompleteUpstreamJob | src/app/api/actions_distributed_task.py:1063-1080 | the named job has ended with the conclusion of the result, a success with its steps, and the runner is online and not busy |
| ActionsService.Service.UpdateJobRequest | src/app/api/actions_distributed_task.py:1159-1181 | the same for the runner's own job, with the result the body, the query or the state gives; it only acknowledges when none does |
| ActionsService.RequestedConclusions | src/app/api/actions_distributed_task.py:1172-1178 | the body's result goes before the query's; a completion without one succeeds, with a null one fails |
| ActionsService.Service.DeleteJobRequest | src/app/api/actions_distributed_task.py:1186-1200 | the same with the query's result, or success |
| ActionsService.Service.UpdateTimeline | src/app/api/actions_distributed_task.py:844-881 | equals the timeline event |
| ActionsService.Service.RequeueJob | src/app/api/admin_frontend.py:592-611 | a job not finished is queued again with its steps; the replies for the others |
| ActionsService.Service.FailLostJob | src/app/api/admin_frontend.py:614-639 | a job in progress fails as lost if a step had begun, else is queued again; the replies for the others |
| ActionsService.Service.CancelWorkflowRun | src/app/api/admin_frontend.py:642-660 | every unfinished job of the run ends cancelled, its steps as they were, and no other job changes |
| ActionsService.Service.DeleteRunnerAndDetachHistory | src/app/api/actions_runners.py:162-216 | refused exactly when the runner holds a job; otherwise the row goes and no job names it |
| StepTracking.JobSteps.Flush | src/app/api/actions_dispatch.py:242-245 | a commit writes the step list exactly when its value differs from the loaded one, or it was flagged |
| StepTracking.JobSteps.LoseAndCommit | src/app/api/actions_dispatch.py:242-261 | after losing a job and committing, the database holds the new step list: the copy leaves the loaded one to compare with |
| StepTracking.JobSteps.CompleteAndCommit | src/app/api/actions_distributed_task.py:924-934 | the in-place change is written because it is flagged |
| CommitFiles.Repository.Commit | src/app/git/bare_repo.py:252-323 | on return the branch names a commit with the expected head as its only parent and that head's tree, deletions then additions applied; it succeeds exactly when head and paths are as expected; when it raises no ref is moved by it |
| CommitFiles.Repository.BuildTree | src/app/git/bare_repo.py:298-311 | the index loops build the overlay tree, or name the first path that is missing |
| CommitGraph.LastWriteWins | src/app/git/bare_repo.py:308-310 | of several additions of a path the last one is in the tree |
| CommitGraph.OverlayAt | src/app/git/bare_repo.py:299-311 | what the overlay holds at a path: its last addition, else nothing if deleted, else the parent's content |
| RefRaces.HistoryIsAppendOnlyIff | src/app/api/git_refs.py:235-257 | over every interleaving of commit and unforced update steps, each tip an existing branch ever had is an ancestor of every later one exactly when no step rewinds it |
| RefRaces.StepKeepsHistoryIff | src/app/api/git_refs.py:246-252 | a step leaves a branch or moves it to a descendant exactly when it is not an unguarded write, or a swap whose target now names another commit, to one that is no descendant |
| RefRaces.GuardedRunNeverRewinds | src/app/git/bare_repo.py:289-323 | branches that exist, whose updates follow commits or one another's refs, are never rewound in any run |
| RefRaces.StepIsLogged | src/app/git/bare_repo.py:316-323 | a write is logged with the tip it replaced, and a call that fails at a step moves nothing |
| RefRaces.NoUpdateIsLost | src/app/git/bare_repo.py:264-267 | over a run that never rewinds the branch, every commit a call moved it to is in its history, and no later call moves it from the head a commit was built on |
| RefRaces.CommitAlone | src/app/git/bare_repo.py:285-323 | a commit call that nothing interrupts succeeds exactly when the branch is at the expected head and that head holds every path to delete, and leaves the branch at a commit on it with the changes; the two failures otherwise |
| RefRaces.UpdateAlone | src/app/api/git_refs.py:238-257 | an unforced update that nothing interrupts succeeds exactly when its target descends from the tip, or the branch is absent and git knows the target |
| RefRaces.UnguardedUpdateLosesACommit | src/app/api/git_refs.py:238-244 | the run in which an update of a branch that was absent drops another caller's commit |
| RefRaces.MovedTargetLosesACommit | src/app/api/git_refs.py:245-257 | a run from three arriving calls in which a swap drops a commit because the ref it follows was made, and moved after the check |
| BranchRecording.RowAgreesIff | src/app/graphql/mutations.py:1615-1641 | over every interleaving of calls and records, once no call owes a record of the branch its records are its writes in some order, and row and ref agree exactly when it was not written, or the last call to record was asked for a commit and left the branch where the last to write did |
| BranchRecording.InOrderRecordsAgree | src/app/api/git_refs.py:254-259 | calls asked for commits that record in the order they wrote leave an agreeing row |
| BranchRecording.CrossedRecordsDisagree | src/app/api/git_refs.py:254-259 | the run of two successful updates after which the row is at the commit the branch has left |
| BranchMirror.StepKeepsAgreementIff | src/app/api/git_refs.py:105-133 | from an agreeing table a refused request changes nothing, and a successful one keeps "a row (name, sha) exists iff refs/heads/name is sha" exactly when it sets the branch it records to the full name it records, or records no branch and leaves the branches alone; creates of HEAD, null names and texts git reads as options included |
| BranchMirror.DeleteKeepsAgreement | src/app/api/git_refs.py:264-296 | deletion always keeps the agreement |
| BranchMirror.SuccessMovesItsRef | src/app/api/git_refs.py:210-257 | success sets or removes the ref the request comes down to, through HEAD where it names HEAD, and no other; a request that fails moves none |
| BranchMirror.UpdateMovesForward | src/app/api/git_refs.py:231-249 | an update that is unforced, or of a branch that forbids forced pushes, moves an existing branch to a descendant or not at all |
| BranchMirror.StepMovesPullHeads | src/app/api/git_refs.py:117-129 | under every request that meets the condition above, open pull requests keep recording where their head branch is |
| BranchMirror.WriteIsRecordedAsPush | src/app/api/git_refs.py:117-129 | a successful write of a branch moves the head and the last pusher of every open pull request from it, and of no other |
| BranchMirror.SealedBranchStaysIff | src/app/api/git_refs.py:196-292 | a locked branch that forbids deletion stays protected, and stays where it is exactly when the request is not a create that comes down to setting it elsewhere or removing it, by its ref, by HEAD or by a null name |
| BranchMirror.SealedBranchStaysOverRunsIff | src/app/api/git_refs.py:228-292 | over every run it stays protected, and no request moves it exactly when it is never created over |
| BranchMirror.CreateMovesLockedBranch | src/app/api/git_refs.py:210-216 | a locked branch that refuses a forced update and is moved by a create |
| BranchMirror.CreateOfHeadMovesLockedBranch | src/app/api/git_refs.py:206-216 | a create of HEAD moves the locked default branch, touches no row and breaks the agreement |
| BranchMirror.NullNameDeletesLockedBranch | src/app/api/git_refs.py:206-216 | a create with the null name deletes a branch that forbids deletion and leaves a row for it |
| BranchMirror.OthersUntouched | src/app/api/git_refs.py:95-129 | rows and pull requests of other repositories are untouched |
| BranchOutcomes.DeleteOutcome | src/app/api/git_refs.py:280-296 | a branch is deleted exactly when it is there, has one row at most and no row forbids deletion, locked or not; then its ref and its row are gone and nothing else |
| BranchOutcomes.UpdateAnswer | src/app/api/git_refs.py:233-252 | which of several rows, locked, force forbidden and not a fast forward an update answers, each by its own flag |
| BranchOutcomes.UpdateOutcome | src/app/api/git_refs.py:240-259 | an update to a commit is done exactly when none of those holds and git takes the name and the commit; then the branch is there and its row says so, its protection kept |
| BranchOutcomes.CreateOutcome | src/app/api/git_refs.py:206-216 | a create of a branch is done exactly when git takes it and there is one row at most, whatever the flags; with several rows the ref has moved all the same |
| BranchOutcomes.NullNameOutcome | src/app/api/git_refs.py:206-259 | when a null name deletes the branch, in an update and in a create |
| BranchOutcomes.OtherRefOutcome | src/app/api/git_refs.py:240-296 | of a ref that is no branch only git is asked, and no row or pull request changes |
| BranchOutcomes.RecordOutcome | src/app/api/git_refs.py:105-116 | a recorded branch keeps its row and protection with the new name of its commit, gets a new unprotected row, or loses its row; several rows are an error |
| BranchOutcomes.Spellings | src/app/api/git_refs.py:229-229 | `heads/x` and `refs/heads/x` mean branch x; `tags/x` no branch |
| BranchStore.Store.RecordBranchChange | src/app/api/git_refs.py:105-129 | equals the recording function, its one-row lookup error included |
| BranchStore.Store.CreateRef | src/app/api/git_refs.py:196-217 | equals the create request; of a full branch name and a commit text, done exactly when git takes both and there is one row at most |
| BranchStore.Store.UpdateRef | src/app/api/git_refs.py:220-261 | equals the update request; of a branch and a commit text, done exactly when the row is not locked, may be forced if it is, and the commit is a fast forward or force is given |
| BranchStore.Store.DeleteRef | src/app/api/git_refs.py:264-296 | equals the delete request; of a branch, done exactly when it is there and no row of it forbids deletion |
| BranchStore.Store.SyncBranches | src/app/git/smart_http.py:121-147 | the two loops leave a synced table: each old row meets its fate, each branch without a row gets one new row |
| BranchSync.SyncRestoresAgreement | src/app/git/smart_http.py:121-147 | from any table with one row per name the sync ends in full agreement with the refs |
| BranchSync.SyncRestoresMirrorIff | src/app/git/smart_http.py:129-145 | with duplicate rows, agreement is restored exactly when every shadowed row already said what is on disk |
| BranchSync.SyncKeepsRows | src/app/git/smart_http.py:134-140 | rows of other repositories stay; a surviving name keeps its row with id and protection |
| BranchSync.SyncAddsRows | src/app/git/smart_http.py:129-145 | a branch on disk without a row has exactly one after the sync, new, at its commit and unprotected |
| BranchSync.SyncOfAgreementIsIdentity | src/app/git/smart_http.py:134-145 | syncing a table that agrees changes nothing |
| BranchRefs.ResolveRefs | src/app/git/bare_repo.py:673-702 | every wanted name gets what its own output line of the batch look-up says, or what the single look-up says, whichever path is taken; nothing else gets an entry |
| BranchRefs.OutputLines | src/app/git/bare_repo.py:692-701 | the output has one line per name exactly when it is each name's line in order, so the length test decides the pairing |
| BranchRefs.MissingLine | src/app/git/bare_repo.py:699-701 | an unresolved name's line reads as unresolved unless the name is blank |
| BranchRefs.NormalizeBranchRefs | src/app/git/bare_repo.py:714-729 | the batch gives each ref its first candidate with an answer |
| BranchRefs.NormalizeBranchRef | src/app/git/bare_repo.py:732-749 | so does the single form |
| BranchRefs.BranchOfLabelPreferred | src/app/git/bare_repo.py:705-711 | `owner:branch` means the branch when it exists and the owner is acceptable, else only the text as it stands |
| BranchRefs.BatchEqualsSingleIff | src/app/git/bare_repo.py:714-749 | for every list, every pair of look-ups and either path, batch and single form agree on a ref exactly when no misread candidate of it is reached |
| BranchRefs.LookUpsDifferIff | src/app/git/bare_repo.py:662-695 | on a repository the two look-ups differ exactly on the full name of an object that is not there and on a caret before a name that resolves |
| BranchRefs.MisreadOnStoreIff | src/app/git/bare_repo.py:673-702 | so a name without a newline or a last carriage return is misread exactly when it is one of those, or blank and unresolved |
| BranchRefs.BatchEqualsSingle | src/app/git/bare_repo.py:717-729 | on a repository the forms agree on all refs when no name with a newline resolves and no candidate is blank, ends in a carriage return, or is told apart by the look-ups |
| BranchRefs.AbsentNameIsMisread | src/app/git/bare_repo.py:656-702 | the full name of an absent object is its own commit alone and has none in the batch |
| BranchRefs.ExclusionIsMisread | src/app/git/bare_repo.py:656-702 | a caret and a branch name has a caret and the branch's commit alone and none in the batch |
| BranchRefs.BlankRefIsMisread | src/app/git/bare_repo.py:698-701 | a blank ref that names nothing resolves to `missing` in a batch |
| BranchRefs.TrailingReturnIsMisread | src/app/git/bare_repo.py:692-701 | a branch name with a carriage return after it resolves in a batch and not alone |
| ReviewThreads.ReviewComments.DeleteReviewComment | src/app/api/review_comments.py:243-276 | the comment is gone; what answered it answers its parent, or if it was a root the oldest reply, which becomes the root; every other comment answers what it did |
| ReviewThreads.DeletionKeepsThreads | src/app/api/review_comments.py:250-275 | after a deletion the relation is a forest with every parent present, and each survivor's root is its old root, or the promoted reply with the old root's location and resolved state |
| ReviewThreads.DeletionKeepsSharing | src/app/api/review_comments.py:250-273 | two survivors share a thread afterwards exactly when they did before |
| ReviewThreads.DeletionKeepsChains | src/app/api/review_comments.py:257-273 | each survivor's chain of answers up to its root is its old one without the deleted comment, the promoted reply standing in for a deleted root where it was not on the chain |
| ReviewThreads.DeletionKeepsContents | src/app/api/review_comments.py:261-273 | body, author and time of every survivor are as before, and its place in the diff too unless it is the promoted reply, which takes the root's |
| ReviewThreads.AncestrySurvives | src/app/api/review_comments.py:237-276 | over any sequence of deletions a comment that answered another, directly or not, goes on doing so |
| ReviewThreads.ThreadsSurvive | src/app/api/review_comments.py:237-276 | both, and the roots' anchors, over any sequence of deletions |
| ReviewThreads.CreationKeepsForestIff | src/app/api/review_comments.py:149-166 | a created comment keeps the forest exactly when its parent exists or it has none |
| FormatExpression.Compile | src/app/api/actions_runner_protocol.py:23-40 | the loop yields the call text of the template, or None without an expression |
| FormatExpression.CompilingPreservesMeaning | src/app/api/actions_runner_protocol.py:23-40 | for every template the runner reads one template back, finds the expressions exactly when each stands as one argument, and the call then evaluates to the literals interleaved with the expressions' values |
| FormatExpression.ArgumentsReadBackIff | src/app/api/actions_runner_protocol.py:40-40 | splitting the argument text at commas outside quotes and parentheses gives the expressions exactly when in each quotes and parentheses close and no comma is outside them |
| FormatExpression.CallReadsBack | src/app/api/actions_runner_protocol.py:39-40 | the quoted string and the arguments read back as written |
| FormatExpression.TemplateEvaluates | src/app/api/actions_runner_protocol.py:30-38 | left-to-right evaluation of doubled braces and placeholders, braces beside placeholders included |
| Connections.BuildConnection | src/app/graphql/connections.py:56-138 | equals the specified connection, an invalid cursor included |
| Connections.SelectWindow | src/app/graphql/connections.py:85-106 | the index arithmetic selects the specified window |
| Connections.CursorRoundTrip | src/app/graphql/connections.py:14-28 | a cursor decodes to the offset it encodes |
| Connections.BuildIsRelayIff | src/app/graphql/connections.py:82-131 | for non-negative limits and issued cursors the edges are those of section 4.4 of the GraphQL Cursor Connections Specification exactly when the cursors are not crossed with edges left |
| Connections.ConnectionIs | src/app/graphql/connections.py:56-138 | for all limits and cursors a request fails exactly when a cursor is invalid; else the edges are consecutive items with their own cursors, and start and end cursor and the two page flags tell where they are |
| Connections.NegativeFirst | src/app/graphql/connections.py:97-110 | a negative `first` by itself leaves that many items off the end |
| Connections.CrossedCursorsDiffer | src/app/graphql/connections.py:93-108 | a concrete crossed request on which they differ |
| Connections.ForwardWalkVisitsAll | src/app/graphql/connections.py:97-131 | following end cursors with any positive sizes ends and visits every item once, in order, every page but the last full |
| Connections.BackwardWalkVisitsAll | src/app/graphql/connections.py:101-131 | the mirror image with start cursors |
| Connections.ForwardPage | src/app/graphql/connections.py:119-124 | the page after a cursor, and that there is a next page exactly while items are left |
| FirstVisible.FirstVisibleRows | src/app/graphql/queries.py:156-179 | exactly the first n visible rows, n clamped to 0..100, for any row count and batch boundary; it terminates |
| FirstVisible.FoundRows | src/app/graphql/queries.py:156-179 | as many rows as are visible, up to the number asked for and a hundred, each visible row at the position the number of visible rows before it gives |
| PatchSplit.ParseGitDiff | src/app/git/bare_repo.py:858-912 | the loop yields the record of each section |
| PatchSplit.PatchesGiveBackTheOutput | src/app/git/bare_repo.py:864-912 | a record per header line, and the patches joined with newlines give back the output from its first header on |
| PatchSplit.DiffComesBack | src/app/git/bare_repo.py:864-912 | the text of a well-formed diff comes back as one record per file, in order |
| PatchSplit.AdditionsExactIff | src/app/git/bare_repo.py:902-903 | a file's additions are the lines its hunks add exactly when no added text begins `++` |
| PatchSplit.DeletionsExactIff | src/app/git/bare_repo.py:904-905 | its deletions are the lines its hunks remove exactly when no removed text begins `--` |
| PatchSplit.NameExactIff | src/app/git/bare_repo.py:898-901 | it keeps the name its head gives exactly when no added text begins `++ b/`, or the last such text goes on with that name |
| PatchSplit.HeadNameIsPathIff | src/app/git/bare_repo.py:875-901 | of the heads git writes, the record takes the file's path for its name exactly when the path is unquoted and has no space if its new-path line is there, else does not hold ` b/` unless it is a rename |
| PatchSplit.RecordIsNamedAfterPathIff | src/app/git/bare_repo.py:875-901 | with the hunks read: exactly when the last added text that begins `++ b/` goes on with the path, or there is none and the head gives it |
| PatchSplit.HunksKeepStatus | src/app/git/bare_repo.py:891-897 | its status and former name are those of its head |
| PatchSplit.RecordHasItsStatus | src/app/git/bare_repo.py:889-897 | of the heads git writes, the record is added, deleted, renamed with the former path, or modified, as the head tells |
| PatchSplit.LastLineWins | src/app/git/bare_repo.py:891-901 | name, status and former name are what the last line that speaks of them says |
| PatchSplit.CommentsAreMisread | src/app/git/bare_repo.py:900-905 | a diff with a removed comment and an added line that are not counted, the second renaming the file |
| LabelEvents.TimelineEqualsState | src/app/api/labels.py:270-294 | over any run of the four label requests, folding the recorded events over the initial set gives the current one, and no event is redundant |
| LabelEvents.StepRecordsTheDifference | src/app/api/labels.py:345-353 | one request records exactly the labels that came and the labels that went |
| LabelEvents.LabelSetAfter | src/app/api/labels.py:329-343 | the label set after each request, and that a refused one changes nothing |
| LabelEvents.RowsAfter | src/app/api/labels.py:270-343 | how many rows each label has after each request |
| LabelEvents.AnswerIs | src/app/api/labels.py:281-418 | when a request answers not found, and when the one-row look-up fails |
| LabelEvents.KnownAfter | src/app/api/labels.py:270-287 | the repository comes to know what an add or a replacement names, and forgets no label, on removal neither |
| LabelEvents.OneRowPerLabelKeptIff | src/app/api/issues.py:391-399 | one row per label is kept by every request except an update that repeats a known label |
| LabelEvents.RepeatedRowBlocksItsLabel | src/app/api/labels.py:281-287 | with two rows for a label, adding and removing it fail |
| LabelEvents.IssueStore.AddIssueLabels | src/app/api/labels.py:251-302 | equals the add request |
| LabelEvents.IssueStore.SetIssueLabels | src/app/api/labels.py:310-368 | equals the replace request |
| LabelEvents.IssueStore.RemoveIssueLabel | src/app/api/labels.py:376-418 | equals the remove request |
| LabelEvents.IssueStore.UpdateIssueLabels | src/app/api/issues.py:380-422 | equals the label part of an issue update |
| DatabaseRetry.DbSession.CommitWithRetry | src/app/database_retry.py:32-76 | equals the specified outcome: durable writes, staged writes, number of commits and how the call ends |
| DatabaseRetry.ReturningMeansOnceIff | src/app/database_retry.py:39-44 | a return means the caller's writes are durable exactly once, exactly when the first commit was accepted or the callback replays them |
| DatabaseRetry.RaisingMeansNever | src/app/database_retry.py:46-76 | a call that raises leaves nothing durable, and at most max(1, attempts) commits are made |
| DatabaseRetry.NoReplayNoSecondCommit | src/app/database_retry.py:72-76 | without a callback only the first commit can succeed |
| DatabaseRetry.ReplayReturnsIff | src/app/database_retry.py:49-58 | with a callback the call returns exactly when an allowed attempt is accepted after locks only |
| DatabaseRetry.EndingIs | src/app/database_retry.py:46-76 | how a call ends and what is durable, staged and committed for each course of answers: accepted, failed at some attempt, or locked throughout |

## Left out

- HTTP routing, authentication, request parsing and JSON serialisation; subprocess plumbing around git.
- Interleaving inside one job handler: a handler up to its commit is one step, and the sweep reads the
  clock once for each of its two rules.
- The scheduler's own decisions (`dispatch_ready_jobs`, `check_run_completion`, which runs share a
  concurrency group) are carried by the event: it may promote or skip waiting jobs and supersede queued
  and running ones. Job outputs, logs and the secrets and payload of a job message are not modelled.
- Run creation, agent updates, session opening (a heartbeat) and message polls are events of the
  transition system only: `Service` has no method for them.
- Job conclusions are texts; label matching is on labels already in lower case.
- Runner deletion without the guard (agent deletion and the broker row an agent update drops), the
  repository and site-wide variants that share a handler, and the sessions table.
- Timeline records that name a step by its identifier are given as the step number that identifier
  stands for; the identifiers are taken to be distinct.
- The text of a cursor without its base64 wrapping, and the spellings of a number that only a lenient
  integer parser accepts.
- How template text splits into literals and expressions (the regular expression and its white space).
- Paths are exact: no path patterns, no file where a directory is needed, mode bits aside.
- Refs are exact names: the one symbolic ref is HEAD, and changing the default branch is not a request;
  no directory conflicts between refs, and a branch on disk is listed by its plain name even when a tag
  has the same one.
- Of git's look-ups, only what a full object name, a caret and a stored name mean; names with a null
  character, which neither form can pass to git.
- Deleting a repository, which takes its runs' jobs with it: no request of the model deletes a job row.
- The order of the sorted name list of a batch, which no result depends on.
- A target of `update_ref` is a commit or a ref name; an abbreviated object name is taken to keep
  naming one commit.
- Branch writers without a compare and swap are not callers in `RefRaces`: forced updates, `create_ref`,
  file writes and pushes over HTTP. Recording a branch is one step in `BranchRecording`, its look-up
  included, and is not said to fail.
- Which characters git escapes in a quoted path: only that escaping does not shorten it. Copies, and diffs
  with other prefixes than `a/` and `b/`.
- A `before_retry` callback that itself raises, and the delay between attempts.
- Label names that are not texts, labels set when an issue is created (they are the initial state),
  and renaming or deleting a repository's label.
- Webhooks, auto-merge and the other effects that follow a commit.
- Everything else in the repository: mostly plain reads and writes of one row, which would add only
  easy members.
