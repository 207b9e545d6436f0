/**
What every run of the job protocol keeps: the shape of a job in each status, the finality of
"completed", and the frame of the scheduler's own writes.
*/
module ActionsInvariants {
  import opened Wrappers
  import opened ActionsModel

  // ---------------------------------------------------------------- the scheduler's frame

  /** The only changes a dispatch makes to a job row. */
  predicate MayDispatch(a: Job, b: Job) {
    || b == a
    || (a.status == Waiting && b == a.(status := Queued, steps := b.steps))
    || (a.status == Waiting && b.status == Completed
        && (b.conclusion == Some("skipped") || b.conclusion == Some("cancelled"))
        && b == a.(status := Completed, conclusion := b.conclusion, completedAt := b.completedAt,
                   steps := b.steps))
    || ((a.status == Queued || a.status == InProgress)
        && b == a.(status := Completed, conclusion := Some("cancelled"), completedAt := b.completedAt))
  }

  lemma {:induction false} DispatchAllFrame(s: State, ds: seq<Dispatch>)
    ensures var t := DispatchAll(s, ds);
            && |t.jobs| == |s.jobs|
            && t.runners == s.runners
            && t.runs.Keys == s.runs.Keys
            && forall i :: 0 <= i < |s.jobs| ==> MayDispatch(s.jobs[i], t.jobs[i])
    decreases |ds|
  {
    if ds != [] {
      var m := DispatchOnce(s, ds[0]);
      DispatchAllFrame(m, ds[1..]);
      var t := DispatchAll(s, ds);
      forall i | 0 <= i < |s.jobs| ensures MayDispatch(s.jobs[i], t.jobs[i]) {
        assert MayDispatch(s.jobs[i], m.jobs[i]);
        assert MayDispatch(m.jobs[i], t.jobs[i]);
      }
    }
  }

  // ---------------------------------------------------------------- the job invariant

  predicate JobOk(job: Job, registered: set<RunnerId>) {
    match job.status
    case Waiting => job.runner == None && job.startedAt == None
    case Queued => job.runner == None && job.startedAt == None
    case InProgress => job.startedAt.Some? && job.runner.Some? && job.runner.value in registered
    case Completed => true
  }

  predicate Inv(s: State) {
    forall i :: 0 <= i < |s.jobs| ==> JobOk(s.jobs[i], s.runners.Keys)
  }

  /** Nothing a request does brings a finished job back, and no job row disappears. */
  predicate Advances(s: State, t: State) {
    && |s.jobs| <= |t.jobs|
    && forall i :: 0 <= i < |s.jobs| && s.jobs[i].status == Completed ==> t.jobs[i].status == Completed
  }

  /** After its own writes, a request changes job rows only as a dispatch may, and runner rows not at all. */
  lemma StepFrame(s: State, e: Event)
    ensures var m, t := Effect(s, e), Step(s, e);
            && |t.jobs| == |m.jobs|
            && t.runners == m.runners
            && t.runs.Keys == m.runs.Keys
            && forall i :: 0 <= i < |m.jobs| ==> MayDispatch(m.jobs[i], t.jobs[i])
  {
    DispatchAllFrame(Effect(s, e), After(s, e));
  }

  lemma SettledKeepsInv(s: State, now: Time, ackNow: Time)
    requires Inv(s)
    ensures Inv(Settled(s, now, ackNow)) && Advances(s, Settled(s, now, ackNow))
  {
    var m := StaleSettled(s, now);
    forall i | 0 <= i < |m.jobs| ensures JobOk(m.jobs[i], m.runners.Keys) {
      assert JobOk(s.jobs[i], s.runners.Keys);
    }
    var t := AckSettled(m, ackNow);
    forall i | 0 <= i < |t.jobs| ensures JobOk(t.jobs[i], t.runners.Keys) {
      assert JobOk(m.jobs[i], m.runners.Keys);
    }
  }

  lemma DeletionKeepsInv(s: State, r: RunnerId)
    requires Inv(s)
    ensures Inv(DoDeleteRunner(s, r)) && Advances(s, DoDeleteRunner(s, r))
  {
    if r in s.runners && !HoldsAny(s.jobs, r) {
      var m := DoDeleteRunner(s, r);
      forall i | 0 <= i < |m.jobs| ensures JobOk(m.jobs[i], m.runners.Keys) {
        assert JobOk(s.jobs[i], s.runners.Keys) && !Holds(s.jobs, r, i);
      }
    }
  }

  predicate CompletesOneJob(e: Event) {
    e.CompleteCustom? || e.CompleteUpstream? || e.CompleteRequest?
  }

  /** Requests that hand one job out, or report on it. */
  predicate WorksOnOneJob(e: Event) {
    e.ClaimCustom? || e.ClaimUpstream? || e.Progress? || e.Timeline?
  }

  lemma CompletionKeepsInv(s: State, e: Event)
    requires Inv(s) && CompletesOneJob(e)
    ensures Inv(Effect(s, e)) && Advances(s, Effect(s, e))
  {
    var m := Effect(s, e);
    forall i | 0 <= i < |m.jobs| ensures JobOk(m.jobs[i], m.runners.Keys) {
      assert JobOk(s.jobs[i], s.runners.Keys);
    }
  }

  lemma OperatorKeepsInv(s: State, e: Event)
    requires Inv(s) && (e.OperatorRequeue? || e.OperatorFail?)
    ensures Inv(Effect(s, e)) && Advances(s, Effect(s, e))
  {
    var m := Effect(s, e);
    forall i | 0 <= i < |m.jobs| ensures JobOk(m.jobs[i], m.runners.Keys) {
      assert JobOk(s.jobs[i], s.runners.Keys);
    }
  }

  lemma WorkKeepsInv(s: State, e: Event)
    requires Inv(s) && WorksOnOneJob(e)
    ensures Inv(Effect(s, e)) && Advances(s, Effect(s, e))
  {
    var m := Effect(s, e);
    forall i | 0 <= i < |m.jobs| ensures JobOk(m.jobs[i], m.runners.Keys) {
      assert JobOk(s.jobs[i], s.runners.Keys);
    }
  }

  lemma EffectKeepsInv(s: State, e: Event)
    requires Inv(s)
    ensures Inv(Effect(s, e)) && Advances(s, Effect(s, e))
  {
    if e.Sweep? {
      SettledKeepsInv(s, e.now, e.ackNow);
    } else if e.DeleteRunner? {
      DeletionKeepsInv(s, e.r);
    } else if CompletesOneJob(e) {
      CompletionKeepsInv(s, e);
    } else if e.OperatorRequeue? || e.OperatorFail? {
      OperatorKeepsInv(s, e);
    } else if WorksOnOneJob(e) {
      WorkKeepsInv(s, e);
    } else {
      var m := Effect(s, e);
      forall i | 0 <= i < |m.jobs| ensures JobOk(m.jobs[i], m.runners.Keys) {
        if i < |s.jobs| { assert JobOk(s.jobs[i], s.runners.Keys); }
      }
    }
  }

  /** Every request keeps the invariant, keeps completed jobs completed and loses no job row. */
  lemma StepKeepsInv(s: State, e: Event)
    requires Inv(s)
    ensures Inv(Step(s, e)) && Advances(s, Step(s, e))
  {
    EffectKeepsInv(s, e);
    StepFrame(s, e);
    var m, t := Effect(s, e), Step(s, e);
    forall i | 0 <= i < |t.jobs| ensures JobOk(t.jobs[i], t.runners.Keys) {
      assert MayDispatch(m.jobs[i], t.jobs[i]) && JobOk(m.jobs[i], m.runners.Keys);
    }
  }

  /**
  Safety of the job table over every run: from tables that satisfy the invariant - the empty tables
  do - every sequence of requests keeps it, and a job once completed stays completed.
  */
  lemma {:induction false} RunKeepsInv(s: State, es: seq<Event>)
    requires Inv(s)
    ensures Inv(RunAll(s, es)) && Advances(s, RunAll(s, es))
    decreases |es|
  {
    if es != [] {
      StepKeepsInv(s, es[0]);
      RunKeepsInv(Step(s, es[0]), es[1..]);
    }
  }

  // ---------------------------------------------------------------- settling a lost job

  predicate Finished(step: StepRow) {
    step.status == Some("completed")
  }

  predicate KnownStatus(step: StepRow) {
    || Untouched(step)
    || step.status == Some("in_progress")
    || step.status == Some("completed")
  }

  /**
  A lost job fails exactly when a step of it had started.  Failing keeps the steps in place: a step
  that had finished is untouched, the one in progress fails with the lost-runner message, the ones
  not begun are skipped.  Otherwise the job is queued again, every step with it.
  */
  lemma LostJobSettlement(job: Job, now: Time)
    ensures var l := Lost(job, now);
            && |l.steps| == |job.steps|
            && (l.status == Completed <==> exists i :: 0 <= i < |job.steps| && !Untouched(job.steps[i]))
            && (l.status == Completed ==>
                  && l.conclusion == Some("failure") && l.completedAt == Some(now) && l.runner == job.runner
                  && forall i :: 0 <= i < |job.steps| ==>
                       var a, b := job.steps[i], l.steps[i];
                       && b.number == a.number && b.name == a.name
                       && (Finished(a) ==> b == a)
                       && (a.status == Some("in_progress") ==>
                             Finished(b) && b.conclusion == Some("failure") && b.message == Some(LOST_RUNNER_MESSAGE))
                       && (Untouched(a) ==> Finished(b) && b.conclusion == Some("skipped") && b.message == a.message))
            && (l.status != Completed ==>
                  && l.status == Queued && l.runner == None && l.startedAt == None
                  && forall i :: 0 <= i < |job.steps| ==>
                       && l.steps[i].status == Some("queued") && l.steps[i].conclusion == None
                       && l.steps[i].name == job.steps[i].name)
  {
    if Started(job.steps) {
      assert Lost(job, now).status == Completed;
    } else {
      assert Lost(job, now).status == Queued;
    }
  }

  /**
  A failed job's steps all end finished exactly when every step had one of the four statuses the
  service itself writes.  A status text a runner made up is left as it is.
  */
  lemma LostStepsAllFinishedIff(job: Job, now: Time)
    requires Started(job.steps)
    ensures (forall i :: 0 <= i < |job.steps| ==> Finished(Lost(job, now).steps[i]))
       <==> (forall i :: 0 <= i < |job.steps| ==> KnownStatus(job.steps[i]))
  {
    var l := Lost(job, now);
    forall i | 0 <= i < |job.steps| ensures Finished(l.steps[i]) <==> KnownStatus(job.steps[i]) {
      assert l.steps[i] == LostStep(job.steps[i], now);
    }
  }

  /** A timeline record whose state is not one of the three known words stores it unchanged. */
  lemma UnknownStateSurvivesSettlement(job: Job, now: Time)
    requires job.status == InProgress
    requires job.steps == [StepRow(1, "build", Some("queued"), None, None, None)]
    ensures var record := TimelineRecord(Some(1), None, "", Some("Waiting"), None);
            var reported := job.(steps := ApplyRecords([record], job.steps));
            Lost(reported, now).status == Completed && !Finished(Lost(reported, now).steps[0])
  {
    var record := TimelineRecord(Some(1), None, "", Some("Waiting"), None);
    assert ApplyRecord(record, job.steps) == [Reported(record, job.steps[0])] + job.steps[1..];
    var steps := ApplyRecords([record], job.steps);
    var mid := ApplyRecord(record, job.steps);
    assert steps == ApplyRecords([record][1..], mid);
    assert ApplyRecords([], mid) == mid;
    assert [record][1..] == [];
    assert steps[0].status == Some("Waiting");
    assert !Untouched(steps[0]);
  }

  // ---------------------------------------------------------------- timeline reports

  /** Timeline records report on steps; they never add, drop, reorder or rename one. */
  lemma {:induction false} RecordsKeepSteps(records: seq<TimelineRecord>, steps: seq<StepRow>)
    ensures |ApplyRecords(records, steps)| == |steps|
    ensures forall i :: 0 <= i < |steps| ==>
              var a, b := steps[i], ApplyRecords(records, steps)[i];
              b == a.(status := b.status, conclusion := b.conclusion)
    ensures forall i :: 0 <= i < |steps| && (forall k :: 0 <= k < |records| ==> !Names(records[k], steps[i])) ==>
              ApplyRecords(records, steps)[i] == steps[i]
    decreases |records|
  {
    if records != [] {
      RecordKeepsSteps(records[0], steps);
      var mid := ApplyRecord(records[0], steps);
      RecordsKeepSteps(records[1..], mid);
      forall i | 0 <= i < |steps| && (forall k :: 0 <= k < |records| ==> !Names(records[k], steps[i]))
        ensures ApplyRecords(records, steps)[i] == steps[i]
      {
        assert !Names(records[0], steps[i]);
        forall k | 0 <= k < |records[1..]| ensures !Names(records[1..][k], mid[i]) {
          assert records[1..][k] == records[k + 1];
        }
      }
    }
  }

  /** Records are applied in the order they come, so the last one that reaches a step has the last word on it. */
  lemma {:induction false} RecordsInOrder(records: seq<TimelineRecord>, last: TimelineRecord, steps: seq<StepRow>)
    ensures ApplyRecords(records + [last], steps) == ApplyRecord(last, ApplyRecords(records, steps))
    decreases |records|
  {
    if records == [] {
      assert [last][1..] == [];
      assert records + [last] == [last];
    } else {
      assert (records + [last])[1..] == records[1..] + [last];
      RecordsInOrder(records[1..], last, ApplyRecord(records[0], steps));
    }
  }

  lemma RecordKeepsSteps(record: TimelineRecord, steps: seq<StepRow>)
    ensures forall i :: 0 <= i < |steps| ==>
              var a, b := steps[i], ApplyRecord(record, steps)[i];
              b == a.(status := b.status, conclusion := b.conclusion)
    ensures forall i :: 0 <= i < |steps| && !Names(record, steps[i]) ==>
              ApplyRecord(record, steps)[i] == steps[i]
  {
    if i :| 0 <= i < |steps| && Names(record, steps[i]) && forall k :: 0 <= k < i ==> !Names(record, steps[k]) {
      RecordReachesFirstNamed(record, steps, i);
    } else {
      NoneNamed(record, steps, |steps|);
      RecordReachesFirstNamed(record, steps, |steps|);
    }
  }

  lemma {:induction false} NoneNamed(record: TimelineRecord, steps: seq<StepRow>, n: nat)
    requires n <= |steps|
    requires !exists i :: (
               && 0 <= i < |steps| && Names(record, steps[i])
               && forall k :: 0 <= k < i ==> !Names(record, steps[k]))
    ensures forall k :: 0 <= k < n ==> !Names(record, steps[k])
    decreases n
  {
    if n > 0 {
      NoneNamed(record, steps, n - 1);
    }
  }

  /** A record reports on the first step it names - step i here - and on no other; naming none, it changes nothing. */
  lemma {:induction false} RecordReachesFirstNamed(record: TimelineRecord, steps: seq<StepRow>, i: nat)
    requires i <= |steps| && forall k :: 0 <= k < i ==> !Names(record, steps[k])
    ensures i == |steps| ==> ApplyRecord(record, steps) == steps
    ensures i < |steps| && Names(record, steps[i]) ==>
              ApplyRecord(record, steps) == steps[i := Reported(record, steps[i])]
    decreases i
  {
    if i > 0 {
      forall k | 0 <= k < i - 1 ensures !Names(record, steps[1..][k]) {
        assert steps[1..][k] == steps[k + 1];
      }
      RecordReachesFirstNamed(record, steps[1..], i - 1);
      assert steps == [steps[0]] + steps[1..];
    }
  }
}
