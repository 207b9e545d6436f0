/**
One job at a time: a runner of the upstream protocol is given a job only while it is not busy.
This file proves when that keeps it to one job, exactly when a request breaks it, and what happens
to a runner whose claim was taken back while it is still marked busy.
*/
module ActionsClaims {
  import opened ActionsModel
  import opened ActionsInvariants

  /** The runner holds at most one in-progress job, and is marked busy while it holds one. */
  predicate OneAtATime(s: State, r: RunnerId) {
    && (forall i, j :: 0 <= i < |s.jobs| && 0 <= j < |s.jobs| && Holds(s.jobs, r, i) && Holds(s.jobs, r, j) ==> i == j)
    && (HoldsAny(s.jobs, r) ==> r in s.runners && s.runners[r].busy)
  }

  /** The request is a claim that hands job j to runner r. */
  predicate Takes(s: State, e: Event, r: RunnerId, j: nat) {
    match e
    case ClaimCustom(q, labels, k, now) => q == r && k == j && r in s.runners && CustomChoice(s, r, labels, j)
    case ClaimUpstream(q, k, now) =>
      q == r && k == j && r in s.runners && !RefusesClaims(s.runners[r]) && UpstreamChoice(s, r, j)
    case _ => false
  }

  /** The request marks r free because r reported a completion, or because its session closed. */
  predicate FreesByReport(s: State, e: Event, r: RunnerId) {
    match e
    case CloseSession(q) => q == r && r in s.runners
    case CompleteCustom(q, j, _, _, _, _) => q == r && r in s.runners && Owns(s.jobs, r, j)
    case CompleteUpstream(q, j, _, _, _) => q == r && r in s.runners && j < |s.jobs|
    case CompleteRequest(q, j, sent, _, _) => q == r && r in s.runners && Owns(s.jobs, r, j) && sent.Some?
    case _ => false
  }

  // ---------------------------------------------------------------- who holds what after a request

  /** A runner comes to hold a job only by claiming it. */
  lemma HoldingsComeFromClaims(s: State, e: Event, r: RunnerId, j: nat)
    requires Holds(Step(s, e).jobs, r, j)
    ensures Holds(Effect(s, e).jobs, r, j) && Effect(s, e).jobs[j] == Step(s, e).jobs[j]
    ensures Holds(s.jobs, r, j) || Takes(s, e, r, j)
  {
    StepFrame(s, e);
    var m := Effect(s, e);
    assert MayDispatch(m.jobs[j], Step(s, e).jobs[j]);
    if e.Sweep? {
      assert StaleSettled(s, e.now).jobs[j].status == InProgress;
    }
  }

  /** A claim marks its runner busy and is refused to a runner already marked so. */
  lemma ClaimMarksBusy(s: State, e: Event, r: RunnerId, j: nat)
    requires Takes(s, e, r, j)
    ensures var t := Step(s, e);
            && Holds(t.jobs, r, j) && r in t.runners && t.runners[r].busy
            && (e.ClaimUpstream? ==> !s.runners[r].busy)
  {
  }

  /** Registering a runner row anew leaves the row holding no job, and free. */
  lemma ReregisteringHoldsNothing(s: State, r: RunnerId, labels: set<string>, now: Time, after: seq<Dispatch>)
    requires r in s.runners
    ensures var t := Step(s, Reregister(r, labels, now, after));
            !HoldsAny(t.jobs, r) && r in t.runners && !t.runners[r].busy
  {
    var e := Reregister(r, labels, now, after);
    StepFrame(s, e);
    forall j | 0 <= j < |s.jobs| ensures !Holds(Step(s, e).jobs, r, j) {
      assert MayDispatch(Effect(s, e).jobs[j], Step(s, e).jobs[j]);
    }
  }

  /** A new process takes a runner row over: by registering under its name, or as a replaced agent. */
  predicate ReusesRow(e: Event, r: RunnerId) {
    (e.Reregister? || e.UpdateAgent?) && e.r == r
  }

  /**
  A reused row is left holding nothing exactly when the reuse is a registration, or the row held nothing
  before: the agent update settles no job.
  */
  lemma ReuseReleasesIff(s: State, e: Event, r: RunnerId)
    requires r in s.runners && ReusesRow(e, r)
    ensures !HoldsAny(Step(s, e).jobs, r) <==> e.Reregister? || !HoldsAny(s.jobs, r)
  {
    if e.Reregister? {
      ReregisteringHoldsNothing(s, r, e.labels, e.now, e.after);
    } else {
      assert Step(s, e).jobs == s.jobs;
    }
  }

  /**
  What a replaced agent held it goes on holding, busy as it was; and until the heartbeat of the update
  has grown old no sweep takes it for the job of a lost runner.
  */
  lemma UpdatedAgentKeepsItsJobs(s: State, e: Event, j: nat, sweep: Time)
    requires e.UpdateAgent? && e.r in s.runners && Holds(s.jobs, e.r, j)
    ensures var t := Step(s, e);
            && Holds(t.jobs, e.r, j) && e.r in t.runners && t.runners[e.r].busy == s.runners[e.r].busy
            && (StaleJob(t, t.jobs[j], sweep) <==> sweep > e.now + STALE_THRESHOLD)
  {
    assert Step(s, e).jobs == s.jobs;
  }

  /** A sweep that takes a runner offline leaves it holding no job. */
  lemma SweptRunnerHoldsNothing(s: State, now: Time, ackNow: Time, after: seq<Dispatch>, r: RunnerId)
    requires r in s.runners && StaleHeartbeat(s.runners[r], now)
    ensures !HoldsAny(Step(s, Sweep(now, ackNow, after)).jobs, r)
  {
    var e := Sweep(now, ackNow, after);
    StepFrame(s, e);
    forall j | 0 <= j < |s.jobs| ensures !Holds(Step(s, e).jobs, r, j) {
      assert MayDispatch(Effect(s, e).jobs[j], Step(s, e).jobs[j]);
      assert Holds(s.jobs, r, j) ==> StaleJob(s, s.jobs[j], now);
    }
  }

  predicate MarksFree(s: State, e: Event, r: RunnerId) {
    || FreesByReport(s, e, r)
    || (e.Reregister? && e.r == r)
    || (e.Sweep? && r in s.runners && StaleHeartbeat(s.runners[r], e.now) && HoldsAny(s.jobs, r))
    || (e.DeleteRunner? && e.r == r && !HoldsAny(s.jobs, r))
  }

  lemma BusyIsCleared(s: State, e: Event, r: RunnerId)
    requires r in s.runners && s.runners[r].busy
    ensures (r in Effect(s, e).runners && Effect(s, e).runners[r].busy) <==> !MarksFree(s, e, r)
  {
  }

  /** While it still holds a job, a runner stops being marked busy only by its own report. */
  lemma BusyIsClearedByReport(s: State, e: Event, r: RunnerId)
    requires r in s.runners && s.runners[r].busy
    requires HoldsAny(s.jobs, r) && HoldsAny(Step(s, e).jobs, r)
    ensures (r in Step(s, e).runners && Step(s, e).runners[r].busy) <==> !FreesByReport(s, e, r)
  {
    StepFrame(s, e);
    BusyIsCleared(s, e, r);
    if e.Reregister? && e.r == r {
      ReregisteringHoldsNothing(s, r, e.labels, e.now, e.after);
    }
    if e.Sweep? && StaleHeartbeat(s.runners[r], e.now) {
      SweptRunnerHoldsNothing(s, e.now, e.ackNow, e.after, r);
    }
  }

  // ---------------------------------------------------------------- what the scheduler takes away

  predicate Supersedes(ds: seq<Dispatch>, j: nat) {
    exists k :: 0 <= k < |ds| && j in ds[k].superseded
  }

  /** A scheduler call the request ends with supersedes job j. */
  predicate Superseded(s: State, e: Event, j: nat) {
    Supersedes(After(s, e), j)
  }

  /** A queued or running job stays exactly as it is through scheduler calls that do not supersede it, else it ends. */
  lemma {:induction false} DispatchAllTakes(s: State, ds: seq<Dispatch>, j: nat)
    requires j < |s.jobs| && (s.jobs[j].status == InProgress || s.jobs[j].status == Queued)
    ensures |DispatchAll(s, ds).jobs| == |s.jobs|
    ensures if Supersedes(ds, j) then Cancelled(DispatchAll(s, ds).jobs[j])
              else DispatchAll(s, ds).jobs[j] == s.jobs[j]
    decreases |ds|
  {
    DispatchAllFrame(s, ds);
    if ds != [] {
      var m := DispatchOnce(s, ds[0]);
      DispatchAllFrame(m, ds[1..]);
      assert ds == [ds[0]] + ds[1..];
      if j in ds[0].superseded {
        assert Cancelled(m.jobs[j]);
        assert MayDispatch(m.jobs[j], DispatchAll(m, ds[1..]).jobs[j]);
      } else {
        DispatchAllTakes(m, ds[1..], j);
        assert Supersedes(ds, j) <==> Supersedes(ds[1..], j) by {
          if k :| 0 <= k < |ds| && j in ds[k].superseded { assert ds[1..][k - 1] == ds[k]; }
          if k :| 0 <= k < |ds[1..]| && j in ds[1..][k].superseded { assert ds[k + 1] == ds[1..][k]; }
        }
      }
    }
  }

  /** What a runner holds after a request is what its writes left it, less what the scheduler calls supersede. */
  lemma HeldAfterDispatch(s: State, e: Event, r: RunnerId, j: nat)
    ensures Holds(Step(s, e).jobs, r, j) <==> Holds(Effect(s, e).jobs, r, j) && !Superseded(s, e, j)
  {
    StepFrame(s, e);
    var m := Effect(s, e);
    if Holds(m.jobs, r, j) {
      DispatchAllTakes(m, After(s, e), j);
    } else if j < |m.jobs| {
      assert MayDispatch(m.jobs[j], Step(s, e).jobs[j]);
    }
  }

  // ---------------------------------------------------------------- the exact breaking point

  /** The job a completion names. */
  predicate Concludes(e: Event, j: nat) {
    || (e.CompleteCustom? && e.j == j)
    || (e.CompleteUpstream? && e.j == j)
    || (e.CompleteRequest? && e.j == j)
  }

  /**
  Before the report: the runner holds a job that the report does not end and no scheduler call after
  it supersedes.
  */
  predicate HoldsPastReport(s: State, e: Event, r: RunnerId) {
    exists i :: 0 <= i < |s.jobs| && Holds(s.jobs, r, i) && !Concludes(e, i) && !Superseded(s, e, i)
  }

  lemma ReportEndsNamedJob(s: State, e: Event, r: RunnerId, i: nat)
    requires FreesByReport(s, e, r)
    ensures |Effect(s, e).jobs| == |s.jobs|
    ensures Holds(Effect(s, e).jobs, r, i) <==> Holds(s.jobs, r, i) && !Concludes(e, i)
  {
  }

  lemma HoldsPastReportIff(s: State, e: Event, r: RunnerId)
    requires FreesByReport(s, e, r)
    ensures HoldsAny(Step(s, e).jobs, r) <==> HoldsPastReport(s, e, r)
  {
    StepFrame(s, e);
    ReportEndsNamedJob(s, e, r, 0);
    forall i | 0 <= i < |s.jobs|
      ensures Holds(Step(s, e).jobs, r, i) <==> Holds(s.jobs, r, i) && !Concludes(e, i) && !Superseded(s, e, i)
    {
      HeldAfterDispatch(s, e, r, i);
      ReportEndsNamedJob(s, e, r, i);
    }
  }

  /**
  A custom-protocol claim by a runner that already holds a job, or a report that frees it while it
  goes on holding one.
  */
  predicate Breaks(s: State, e: Event, r: RunnerId) {
    || (e.ClaimCustom? && HoldsAny(s.jobs, r) && Takes(s, e, r, e.j))
    || (FreesByReport(s, e, r) && HoldsPastReport(s, e, r))
  }

  /**
  A request keeps a runner to one job at a time exactly when it does not break it in one of the two
  ways; both can be told from the tables and the request alone.
  */
  lemma OneAtATimeKeptIff(s: State, e: Event, r: RunnerId)
    requires OneAtATime(s, r)
    ensures OneAtATime(Step(s, e), r) <==> !Breaks(s, e, r)
  {
    if k :| 0 <= k < |s.jobs| && Takes(s, e, r, k) {
      ClaimKeepsOneIff(s, e, r, k);
    } else {
      NoClaimKeepsOneIff(s, e, r);
    }
  }

  lemma ClaimKeepsOneIff(s: State, e: Event, r: RunnerId, k: nat)
    requires OneAtATime(s, r) && k < |s.jobs| && Takes(s, e, r, k)
    ensures OneAtATime(Step(s, e), r) <==> !Breaks(s, e, r)
  {
    var t := Step(s, e);
    ClaimMarksBusy(s, e, r, k);
    forall i | 0 <= i < |t.jobs| && Holds(t.jobs, r, i) ensures i == k || HoldsAny(s.jobs, r) {
      HoldingsComeFromClaims(s, e, r, i);
    }
    if HoldsAny(s.jobs, r) {
      var i :| 0 <= i < |s.jobs| && Holds(s.jobs, r, i);
      assert s.runners[r].busy;
      assert e.ClaimCustom?;
      assert i != k && Holds(t.jobs, r, i);
    }
  }

  lemma NoClaimKeepsOneIff(s: State, e: Event, r: RunnerId)
    requires OneAtATime(s, r) && forall k :: 0 <= k < |s.jobs| ==> !Takes(s, e, r, k)
    ensures OneAtATime(Step(s, e), r) <==> !Breaks(s, e, r)
  {
    var t := Step(s, e);
    forall i | 0 <= i < |t.jobs| && Holds(t.jobs, r, i) ensures Holds(s.jobs, r, i) {
      HoldingsComeFromClaims(s, e, r, i);
    }
    if HoldsAny(t.jobs, r) {
      var i :| 0 <= i < |t.jobs| && Holds(t.jobs, r, i);
      assert Holds(s.jobs, r, i);
      BusyIsClearedByReport(s, e, r);
    }
    if FreesByReport(s, e, r) {
      HoldsPastReportIff(s, e, r);
    }
  }

  /**
  The discipline the upstream runner follows, checkable before the request: it claims only through
  its own protocol, a completion it reports names the job it holds, and it closes its session only
  when it holds none.
  */
  predicate Disciplined(s: State, e: Event, r: RunnerId) {
    match e
    case ClaimCustom(q, _, _, _) => q != r
    case CloseSession(q) => q == r ==> !HoldsAny(s.jobs, r)
    case CompleteCustom(q, j, _, _, _, _) => q == r ==> HoldsNoOther(s.jobs, r, j)
    case CompleteUpstream(q, j, _, _, _) => q == r ==> HoldsNoOther(s.jobs, r, j)
    case CompleteRequest(q, j, sent, _, _) => q == r && sent.Some? ==> HoldsNoOther(s.jobs, r, j)
    case _ => true
  }

  predicate HoldsNoOther(jobs: seq<Job>, r: RunnerId, j: nat) {
    forall i :: 0 <= i < |jobs| && i != j ==> !Holds(jobs, r, i)
  }

  lemma DisciplineDoesNotBreak(s: State, e: Event, r: RunnerId)
    requires OneAtATime(s, r) && Disciplined(s, e, r)
    ensures !Breaks(s, e, r)
  {
  }

  predicate DisciplinedRun(s: State, es: seq<Event>, r: RunnerId)
    decreases |es|
  {
    es == [] || (Disciplined(s, es[0], r) && DisciplinedRun(Step(s, es[0]), es[1..], r))
  }

  /** Over any run in which the runner keeps the discipline, whatever the others do, it never holds two jobs. */
  lemma {:induction false} DisciplinedRunnerHoldsOneJob(s: State, es: seq<Event>, r: RunnerId)
    requires OneAtATime(s, r) && DisciplinedRun(s, es, r)
    ensures OneAtATime(RunAll(s, es), r)
    decreases |es|
  {
    if es != [] {
      DisciplineDoesNotBreak(s, es[0], r);
      OneAtATimeKeptIff(s, es[0], r);
      DisciplinedRunnerHoldsOneJob(Step(s, es[0]), es[1..], r);
    }
  }

  // ---------------------------------------------------------------- a claim taken back

  /** Marked busy, but holding nothing. */
  predicate Stranded(s: State, r: RunnerId) {
    r in s.runners && s.runners[r].busy && !HoldsAny(s.jobs, r)
  }

  /**
  A sweep strands the runner of a held job exactly when the runner is not stale and the job is taken
  from it: by the acknowledgement rule, which does not free the runner, or by the scheduler.
  */
  lemma SweepStrandsIff(s: State, now: Time, ackNow: Time, after: seq<Dispatch>, r: RunnerId, j: nat)
    requires OneAtATime(s, r) && Holds(s.jobs, r, j)
    ensures var e := Sweep(now, ackNow, after);
            (Stranded(Step(s, e), r))
              <==> !StaleHeartbeat(s.runners[r], now) && (Unacknowledged(s.jobs[j], ackNow) || Superseded(s, e, j))
  {
    var e := Sweep(now, ackNow, after);
    var t := Step(s, e);
    StepFrame(s, e);
    HeldAfterDispatch(s, e, r, j);
    forall i | 0 <= i < |t.jobs| && Holds(t.jobs, r, i) ensures i == j {
      HoldingsComeFromClaims(s, e, r, i);
    }
    assert StaleJob(s, s.jobs[j], now) <==> StaleHeartbeat(s.runners[r], now);
    assert Holds(Effect(s, e).jobs, r, j)
      <==> !StaleHeartbeat(s.runners[r], now) && !Unacknowledged(s.jobs[j], ackNow);
    BusyIsCleared(s, e, r);
  }

  /**
  The requests that end it, told before the request: one that marks the runner free, or hands it a
  job all the same.
  */
  predicate Rescues(s: State, e: Event, r: RunnerId) {
    MarksFree(s, e, r) || exists j :: 0 <= j < |s.jobs| && Takes(s, e, r, j)
  }

  /** A stranded runner stays stranded exactly when the request does not rescue it; its own claims are refused. */
  lemma StrandedStaysIff(s: State, e: Event, r: RunnerId)
    requires Stranded(s, r)
    ensures Stranded(Step(s, e), r) <==> !Rescues(s, e, r)
    ensures e.ClaimUpstream? && e.r == r ==> Step(s, e) == s
  {
    var t := Step(s, e);
    StepFrame(s, e);
    BusyIsCleared(s, e, r);
    if j :| 0 <= j < |s.jobs| && Takes(s, e, r, j) {
      ClaimMarksBusy(s, e, r, j);
    } else if HoldsAny(t.jobs, r) {
      var i :| 0 <= i < |t.jobs| && Holds(t.jobs, r, i);
      HoldingsComeFromClaims(s, e, r, i);
      assert Takes(s, e, r, i);
    }
  }

  predicate NoRescue(s: State, es: seq<Event>, r: RunnerId)
    decreases |es|
  {
    es == [] || (!Rescues(s, es[0], r) && NoRescue(Step(s, es[0]), es[1..], r))
  }

  /** Stranded now and after every request of the run. */
  predicate StrandedThroughout(s: State, es: seq<Event>, r: RunnerId)
    decreases |es|
  {
    Stranded(s, r) && (es == [] || StrandedThroughout(Step(s, es[0]), es[1..], r))
  }

  /** Over any run a stranded runner gets no job, and stays marked busy, exactly as long as nothing rescues it. */
  lemma {:induction false} StrandedRunnerGetsNoJobIff(s: State, es: seq<Event>, r: RunnerId)
    requires Stranded(s, r)
    ensures StrandedThroughout(s, es, r) <==> NoRescue(s, es, r)
    ensures NoRescue(s, es, r) ==> Stranded(RunAll(s, es), r)
    decreases |es|
  {
    if es != [] {
      StrandedStaysIff(s, es[0], r);
      if !Rescues(s, es[0], r) {
        StrandedRunnerGetsNoJobIff(Step(s, es[0]), es[1..], r);
      }
    }
  }
}
