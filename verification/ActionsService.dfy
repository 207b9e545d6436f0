/**
The handlers themselves, as methods that change the tables row by row.  Each one is proved equal to
the event of `ActionsModel` it commits, so what is proved of every run of events holds of the
handlers.
*/
module ActionsService {
  import opened Wrappers
  import opened ResultCodes
  import opened ActionsModel
  import opened ActionsInvariants
  import opened ActionsOutcomes
  import opened ActionsSweep

  /** The result field of an update: left out, null, or given. */
  datatype BodyResult = NoResult | NullResult | Given(result: ResultCode)

  datatype Reply = Done | NoContent | Unauthorized | NotFound | Conflict | Refused

  lemma {:induction false} CountOfIncreasing(ids: seq<nat>, all: set<nat>)
    requires forall a, b :: 0 <= a < b < |ids| ==> ids[a] < ids[b]
    requires forall i :: i in all <==> i in ids
    ensures |ids| == |all|
    decreases |ids|
  {
    if ids == [] {
      assert all == {};
    } else {
      var last, init := ids[|ids| - 1], ids[..|ids| - 1];
      assert forall i :: i in ids <==> i == last || i in init;
      CountOfIncreasing(init, all - {last});
    }
  }

  /** The rows name jobs, oldest first. */
  predicate ByAge(jobs: seq<Job>, rows: seq<nat>) {
    && (forall a :: 0 <= a < |rows| ==> rows[a] < |jobs|)
    && forall a, b :: 0 <= a < b < |rows| ==> jobs[rows[a]].createdAt <= jobs[rows[b]].createdAt
  }

  lemma InsertedMembers(rows: seq<nat>, at: nat, i: nat)
    requires at <= |rows|
    ensures forall k :: k in rows[..at] + [i] + rows[at..] <==> k == i || k in rows
  {
    assert rows == rows[..at] + rows[at..];
  }

  lemma InsertedByAge(jobs: seq<Job>, rows: seq<nat>, at: nat, i: nat)
    requires ByAge(jobs, rows) && at <= |rows| && i < |jobs|
    requires forall a :: 0 <= a < at ==> jobs[rows[a]].createdAt <= jobs[i].createdAt
    requires forall a :: at <= a < |rows| ==> jobs[i].createdAt <= jobs[rows[a]].createdAt
    ensures ByAge(jobs, rows[..at] + [i] + rows[at..])
  {
  }

  lemma FirstFitIsOldest(jobs: seq<Job>, rows: seq<nat>, k: nat, i: nat)
    requires ByAge(jobs, rows) && k < |rows| && i in rows && i !in rows[..k]
    ensures i < |jobs| && jobs[rows[k]].createdAt <= jobs[i].createdAt
  {
    var m :| 0 <= m < |rows| && rows[m] == i;
    assert m >= k;
  }

  ghost function RunnersOf(jobs: seq<Job>, ids: set<nat>): set<RunnerId> {
    set i | i in ids && i < |jobs| && jobs[i].runner.Some? :: jobs[i].runner.value
  }

  ghost predicate SomeStarted(jobs: seq<Job>, ids: set<nat>) {
    exists i :: i in ids && i < |jobs| && Started(jobs[i].steps)
  }

  lemma OneMoreJob(jobs: seq<Job>, ids: set<nat>, j: nat)
    requires j < |jobs| && jobs[j].runner.Some?
    ensures RunnersOf(jobs, ids + {j}) == RunnersOf(jobs, ids) + {jobs[j].runner.value}
    ensures SomeStarted(jobs, ids + {j}) <==> SomeStarted(jobs, ids) || Started(jobs[j].steps)
  {
    if SomeStarted(jobs, ids) {
      var i :| i in ids && i < |jobs| && Started(jobs[i].steps);
      assert i in ids + {j};
    }
    if Started(jobs[j].steps) {
      assert j in ids + {j};
    }
  }

  /** The runners the heartbeat rule reaches are the stale ones that hold a job. */
  lemma RunnersReached(s: State, now: Time)
    ensures forall r :: r in s.runners ==>
              (r in RunnersOf(s.jobs, StaleIds(s, now)) <==> StaleHeartbeat(s.runners[r], now) && HoldsAny(s.jobs, r))
    ensures SweepFails(s, now) <==> SomeStarted(s.jobs, StaleIds(s, now))
  {
    var reached := RunnersOf(s.jobs, StaleIds(s, now));
    forall r | r in s.runners ensures r in reached <==> StaleHeartbeat(s.runners[r], now) && HoldsAny(s.jobs, r) {
      if r in reached {
        var i :| i in StaleIds(s, now) && i < |s.jobs| && s.jobs[i].runner == Some(r);
        assert Holds(s.jobs, r, i);
      }
      if StaleHeartbeat(s.runners[r], now) && HoldsAny(s.jobs, r) {
        var j :| 0 <= j < |s.jobs| && Holds(s.jobs, r, j);
        assert j in StaleIds(s, now);
      }
    }
    if SweepFails(s, now) {
      var i :| 0 <= i < |s.jobs| && StaleJob(s, s.jobs[i], now) && Started(s.jobs[i].steps);
      assert i in StaleIds(s, now);
    }
  }

  /** The tables while the heartbeat rule is at work, the given jobs settled so far. */
  ghost function SettledSoFar(jobs: seq<Job>, ids: set<nat>, now: Time): seq<Job> {
    seq(|jobs|, i requires 0 <= i < |jobs| => if i in ids then Lost(jobs[i], now) else jobs[i])
  }

  ghost function OfflineSoFar(runners: map<RunnerId, Runner>, rs: set<RunnerId>): map<RunnerId, Runner> {
    map r | r in runners :: if r in rs then runners[r].(status := Offline, busy := false) else runners[r]
  }

  lemma OneMoreSettled(jobs: seq<Job>, ids: set<nat>, j: nat, now: Time)
    requires j < |jobs| && j !in ids
    ensures SettledSoFar(jobs, ids, now)[j] == jobs[j]
    ensures SettledSoFar(jobs, ids, now)[j := Lost(jobs[j], now)] == SettledSoFar(jobs, ids + {j}, now)
  {
  }

  lemma OneMoreOffline(runners: map<RunnerId, Runner>, rs: set<RunnerId>, r: RunnerId)
    requires r in runners
    ensures var m := OfflineSoFar(runners, rs);
            m[r := m[r].(status := Offline, busy := false)] == OfflineSoFar(runners, rs + {r})
  {
  }

  ghost predicate ReadSoFar(rows: seq<nat>, k: nat, done: set<nat>)
    requires k <= |rows|
  {
    forall i :: i in done <==> i in rows[..k]
  }

  lemma NextRow(rows: seq<nat>, k: nat, done: set<nat>)
    requires k < |rows| && ReadSoFar(rows, k, done) && forall a, b :: 0 <= a < b < |rows| ==> rows[a] < rows[b]
    ensures rows[k] in rows && rows[k] !in done && ReadSoFar(rows, k + 1, done + {rows[k]})
  {
    assert rows[..k + 1] == rows[..k] + [rows[k]];
  }

  lemma AllRead(rows: seq<nat>, done: set<nat>)
    requires ReadSoFar(rows, |rows|, done)
    ensures forall i :: i in done <==> i in rows
  {
    assert rows[..|rows|] == rows;
  }

  ghost function PartSettled(s: State, ids: set<nat>, now: Time): State {
    s.(jobs := SettledSoFar(s.jobs, ids, now), runners := OfflineSoFar(s.runners, RunnersOf(s.jobs, ids)))
  }

  /** One job of the heartbeat rule: it is lost, and its runner goes offline. */
  ghost function OneSettled(s: State, j: nat, now: Time): State
    requires j < |s.jobs| && s.jobs[j].runner.Some? && s.jobs[j].runner.value in s.runners
  {
    var r := s.jobs[j].runner.value;
    s.(jobs := s.jobs[j := Lost(s.jobs[j], now)],
      runners := s.runners[r := s.runners[r].(status := Offline, busy := false)])
  }

  lemma SettlingStarts(s: State, now: Time)
    ensures PartSettled(s, {}, now) == s && !SomeStarted(s.jobs, {})
  {
    assert SettledSoFar(s.jobs, {}, now) == s.jobs;
    assert RunnersOf(s.jobs, {}) == {};
    assert OfflineSoFar(s.runners, {}) == s.runners;
  }

  lemma OneMoreOfRule(s: State, ids: set<nat>, j: nat, now: Time)
    requires j in StaleIds(s, now) && j !in ids
    ensures var m := PartSettled(s, ids, now);
            && j < |m.jobs| && m.jobs[j] == s.jobs[j] && m.jobs[j].runner.Some? && m.jobs[j].runner.value in m.runners
            && OneSettled(m, j, now) == PartSettled(s, ids + {j}, now)
    ensures SomeStarted(s.jobs, ids + {j}) <==> SomeStarted(s.jobs, ids) || Started(s.jobs[j].steps)
  {
    OneMoreJob(s.jobs, ids, j);
    OneMoreSettled(s.jobs, ids, j, now);
    OneMoreOffline(s.runners, RunnersOf(s.jobs, ids), s.jobs[j].runner.value);
  }

  lemma AllSettled(s: State, now: Time)
    ensures PartSettled(s, StaleIds(s, now), now) == StaleSettled(s, now)
    ensures SweepFails(s, now) <==> SomeStarted(s.jobs, StaleIds(s, now))
  {
    RunnersReached(s, now);
    var ids := StaleIds(s, now);
    assert SettledSoFar(s.jobs, ids, now) == StaleSettled(s, now).jobs;
    assert OfflineSoFar(s.runners, RunnersOf(s.jobs, ids)) == StaleSettled(s, now).runners;
  }

  /** What the listing says over time: online up to the given moment, offline after it. */
  ghost predicate ListedOnlineUntil(runner: Runner, until: Time) {
    forall at: Time :: EffectiveStatus(runner, at) == if at <= until then Online else Offline
  }

  class Service {
    var jobs: seq<Job>
    var runners: map<RunnerId, Runner>
    var runs: map<RunId, Run>

    ghost function Tables(): State
      reads this
    {
      State(jobs, runners, runs)
    }

    constructor ()
      ensures Tables() == State([], map[], map[])
    {
      jobs, runners, runs := [], map[], map[];
    }

    // ------------------------------------------------------------ one job

    method Requeue(j: nat)
      requires j < |jobs|
      modifies this`jobs
      ensures jobs == old(jobs)[j := Requeued(old(jobs)[j])]
      ensures QueuedAgain(old(jobs)[j], jobs[j])
    {
      RequeuedOutcome(jobs[j]);
      var job := jobs[j];
      var steps: seq<StepRow> := [];
      for i := 0 to |job.steps|
        invariant steps == ResetSteps(job.steps)[..i]
      {
        steps := steps + [job.steps[i].(status := Some("queued"), conclusion := None)];
      }
      assert steps == ResetSteps(job.steps);
      jobs := jobs[j := job.(status := Queued, runner := None, runnerName := None, startedAt := None,
                             steps := steps)];
    }

    method AnyStarted(steps: seq<StepRow>) returns (started: bool)
      ensures started == Started(steps)
    {
      for i := 0 to |steps|
        invariant forall k :: 0 <= k < i ==> Untouched(steps[k])
      {
        if steps[i].status != None && steps[i].status != Some("queued") {
          return true;
        }
      }
      return false;
    }

    /** Returns whether the job was failed, so that the caller concludes its run. */
    method LoseJob(j: nat, now: Time) returns (failed: bool)
      requires j < |jobs|
      modifies this`jobs
      ensures jobs == old(jobs)[j := Lost(old(jobs)[j], now)]
      ensures failed == Started(old(jobs)[j].steps) == HadStarted(old(jobs)[j])
      ensures if failed then FailedAsLost(old(jobs)[j], jobs[j], now) else QueuedAgain(old(jobs)[j], jobs[j])
    {
      LostOutcome(jobs[j], now);
      var steps := jobs[j].steps;
      ghost var before := steps;
      var started := AnyStarted(steps);
      if !started {
        Requeue(j);
        return false;
      }
      for i := 0 to |steps|
        invariant |steps| == |before|
        invariant forall k :: 0 <= k < i ==> steps[k] == LostStep(before[k], now)
        invariant forall k :: i <= k < |steps| ==> steps[k] == before[k]
      {
        if steps[i].status == Some("in_progress") {
          steps := steps[i := steps[i].(status := Some("completed"), conclusion := Some("failure"),
                                        completedAt := Some(now), message := Some(LOST_RUNNER_MESSAGE))];
        } else if steps[i].status == None || steps[i].status == Some("queued") {
          steps := steps[i := steps[i].(status := Some("completed"), conclusion := Some("skipped"))];
        }
      }
      assert steps == LostSteps(before, now);
      jobs := jobs[j := jobs[j].(steps := steps, status := Completed, conclusion := Some("failure"),
                                 completedAt := Some(now))];
      return true;
    }

    method CompleteQueuedSteps(j: nat, result: ResultCode)
      requires j < |jobs|
      modifies this`jobs
      ensures jobs == old(jobs)[j := old(jobs)[j].(steps := FinishedSteps(old(jobs)[j].steps, ConclusionOf(result)))]
      ensures StepsFinished(old(jobs)[j].steps, jobs[j].steps, ConclusionOf(result))
    {
      FinishedOutcome(jobs[j].steps, ConclusionOf(result));
      var conclusion := ConclusionOf(result);
      var steps := jobs[j].steps;
      ghost var before := steps;
      for i := 0 to |steps|
        invariant |steps| == |before|
        invariant forall k :: 0 <= k < i ==> steps[k] == FinishedStep(before[k], conclusion)
        invariant forall k :: i <= k < |steps| ==> steps[k] == before[k]
      {
        if steps[i].status != Some("completed") {
          steps := steps[i := steps[i].(status := Some("completed"),
                                        conclusion := Some(if conclusion != "cancelled"
                                          then conclusion else "skipped"))];
        }
      }
      assert steps == FinishedSteps(before, conclusion);
      jobs := jobs[j := jobs[j].(steps := steps)];
    }

    // ------------------------------------------------------------ the scheduler

    method Conclude(after: seq<Dispatch>)
      modifies this
      ensures Tables() == DispatchAll(old(Tables()), after)
    {
      ghost var start := Tables();
      assert after[0..] == after;
      for k := 0 to |after|
        invariant DispatchAll(Tables(), after[k..]) == DispatchAll(start, after)
      {
        assert after[k..][0] == after[k] && after[k..][1..] == after[k + 1..];
        var t := DispatchOnce(State(jobs, runners, runs), after[k]);
        jobs, runs := t.jobs, t.runs;
      }
      assert after[|after|..] == [];
    }

    // ------------------------------------------------------------ the stale-runner sweep

    method StaleQuery(now: Time) returns (rows: seq<nat>)
      ensures forall a, b :: 0 <= a < b < |rows| ==> rows[a] < rows[b]
      ensures forall i :: i in rows <==> i in StaleIds(Tables(), now)
    {
      rows := [];
      for i := 0 to |jobs|
        invariant forall a, b :: 0 <= a < b < |rows| ==> rows[a] < rows[b]
        invariant forall a :: 0 <= a < |rows| ==> rows[a] < i
        invariant forall k :: k in rows <==> k < i && k in StaleIds(Tables(), now)
      {
        var job := jobs[i];
        if job.status == InProgress && job.runner.Some? && job.runner.value in runners
           && runners[job.runner.value].lastHeartbeat.Some?
           && runners[job.runner.value].lastHeartbeat.value < now - STALE_THRESHOLD {
          rows := rows + [i];
        }
      }
    }

    method UnacknowledgedQuery(now: Time) returns (rows: seq<nat>)
      ensures forall a, b :: 0 <= a < b < |rows| ==> rows[a] < rows[b]
      ensures forall i: nat :: i in rows <==>
                i < |jobs| && jobs[i].status == InProgress && jobs[i].startedAt.Some?
                && jobs[i].startedAt.value < now - CLAIM_ACK
    {
      rows := [];
      for i := 0 to |jobs|
        invariant forall a, b :: 0 <= a < b < |rows| ==> rows[a] < rows[b]
        invariant forall a :: 0 <= a < |rows| ==> rows[a] < i
        invariant forall k: nat :: k in rows <==>
                    k < i && jobs[k].status == InProgress && jobs[k].startedAt.Some?
                    && jobs[k].startedAt.value < now - CLAIM_ACK
      {
        if jobs[i].status == InProgress && jobs[i].startedAt.Some? && jobs[i].startedAt.value < now - CLAIM_ACK {
          rows := rows + [i];
        }
      }
    }

    method SettleStale(now: Time) returns (count: nat, lost: bool)
      modifies this
      ensures Tables() == StaleSettled(old(Tables()), now)
      ensures count == |StaleIds(old(Tables()), now)|
      ensures lost == SweepFails(old(Tables()), now)
    {
      ghost var s := Tables();
      var rows := StaleQuery(now);
      CountOfIncreasing(rows, StaleIds(s, now));
      count := |rows|;
      lost := false;
      ghost var done: set<nat> := {};
      SettlingStarts(s, now);
      for k := 0 to |rows|
        invariant Tables() == PartSettled(s, done, now)
        invariant ReadSoFar(rows, k, done)
        invariant lost == SomeStarted(s.jobs, done)
      {
        NextRow(rows, k, done);
        OneMoreOfRule(s, done, rows[k], now);
        var failed := SettleOne(rows[k], now);
        lost := lost || failed;
        done := done + {rows[k]};
      }
      assert done == StaleIds(s, now) by { AllRead(rows, done); }
      AllSettled(s, now);
    }

    method SettleOne(j: nat, now: Time) returns (failed: bool)
      requires j < |jobs| && jobs[j].runner.Some? && jobs[j].runner.value in runners
      modifies this`jobs, this`runners
      ensures Tables() == OneSettled(old(Tables()), j, now)
      ensures failed == Started(old(jobs)[j].steps)
    {
      var r := jobs[j].runner.value;
      failed := LoseJob(j, now);
      runners := runners[r := runners[r].(status := Offline, busy := false)];
    }

    method SettleUnacknowledged(now: Time) returns (count: nat)
      modifies this`jobs
      ensures Tables() == AckSettled(old(Tables()), now)
      ensures count == |AckIds(old(Tables()), now)|
    {
      ghost var s := Tables();
      var rows := UnacknowledgedQuery(now);
      ghost var requeued: seq<nat> := [];
      count := 0;
      for k := 0 to |rows|
        invariant |jobs| == |s.jobs|
        invariant forall i :: 0 <= i < |jobs| ==>
                    jobs[i] == if i in rows[..k] && !Started(s.jobs[i].steps) then Requeued(s.jobs[i]) else s.jobs[i]
        invariant count == |requeued|
        invariant forall a, b :: 0 <= a < b < |requeued| ==> requeued[a] < requeued[b]
        invariant forall i: nat :: i in requeued <==> i in rows[..k] && i < |s.jobs| && !Started(s.jobs[i].steps)
      {
        var j := rows[k];
        assert j in rows;
        assert j !in rows[..k];
        assert rows[..k + 1] == rows[..k] + [j];
        var started := AnyStarted(jobs[j].steps);
        if started {
          continue;
        }
        Requeue(j);
        count := count + 1;
        forall a | 0 <= a < |requeued| ensures requeued[a] < j {
          assert requeued[a] in requeued;
          var b :| 0 <= b < k && rows[..k][b] == requeued[a];
          assert rows[b] < rows[k];
        }
        requeued := requeued + [j];
      }
      assert rows[..|rows|] == rows;
      forall i: nat ensures i in AckIds(s, now) <==> i in requeued {
        if i in AckIds(s, now) { assert i in rows; }
      }
      CountOfIncreasing(requeued, AckIds(s, now));
      assert jobs == AckSettled(s, now).jobs;
    }

    method RequeueStaleJobs(now: Time, ackNow: Time, after: seq<Dispatch>) returns (count: nat)
      modifies this
      ensures Tables() == Step(old(Tables()), Sweep(now, ackNow, after))
      ensures count == SettledCount(old(Tables()), now, ackNow)
    {
      var stale, lost := SettleStale(now);
      var requeued := SettleUnacknowledged(ackNow);
      if lost {
        Conclude(after);
      }
      count := stale + requeued;
    }

    // ------------------------------------------------------------ registration and heartbeats

    method ReleaseHeldJobs(r: RunnerId, now: Time) returns (lost: set<RunId>)
      modifies this`jobs
      ensures jobs == ReleasedJobs(old(jobs), r, now) && |jobs| == |old(jobs)|
      ensures forall i :: 0 <= i < |jobs| ==>
                if !InProgressOn(old(jobs)[i], r) then jobs[i] == old(jobs)[i]
                else if HadStarted(old(jobs)[i]) then FailedAsLost(old(jobs)[i], jobs[i], now)
                else QueuedAgain(old(jobs)[i], jobs[i])
      ensures lost != {} <==> ReleaseFails(old(jobs), r)
      ensures forall k :: k in lost <==>
                exists i :: 0 <= i < |old(jobs)| && Holds(old(jobs), r, i) && Started(old(jobs)[i].steps)
                            && old(jobs)[i].runId == k
    {
      ghost var before := jobs;
      lost := {};
      for i := 0 to |jobs|
        invariant |jobs| == |before|
        invariant forall k :: 0 <= k < i ==> jobs[k] == ReleasedJobs(before, r, now)[k]
        invariant forall k :: i <= k < |jobs| ==> jobs[k] == before[k]
        invariant forall id :: id in lost <==>
                    exists k :: 0 <= k < i && Holds(before, r, k) && Started(before[k].steps) && before[k].runId == id
      {
        if jobs[i].runner == Some(r) && jobs[i].status == InProgress {
          var runId := jobs[i].runId;
          var failed := LoseJob(i, now);
          if failed {
            lost := lost + {runId};
          }
        }
      }
      assert jobs == ReleasedJobs(before, r, now);
      forall i | 0 <= i < |jobs| && InProgressOn(before[i], r)
        ensures if HadStarted(before[i]) then FailedAsLost(before[i], jobs[i], now) else QueuedAgain(before[i], jobs[i])
      {
        LostOutcome(before[i], now);
      }
      if ReleaseFails(before, r) {
        var i :| 0 <= i < |before| && Holds(before, r, i) && Started(before[i].steps);
        assert before[i].runId in lost;
      }
    }

    method ReregisterRunner(r: RunnerId, labels: set<string>, now: Time, after: seq<Dispatch>)
      requires r in runners
      modifies this
      ensures Tables() == Step(old(Tables()), Reregister(r, labels, now, after))
      ensures |jobs| == |old(jobs)|
      ensures forall i :: 0 <= i < |jobs| ==>
                SettledForNewProcess(old(Tables()), Reregister(r, labels, now, after), i, jobs[i])
    {
      ghost var s, e := Tables(), Reregister(r, labels, now, after);
      runners := runners[r := runners[r].(status := Online, labels := labels, busy := false,
                                          lastHeartbeat := Some(now))];
      var lost := ReleaseHeldJobs(r, now);
      if lost != {} {
        Conclude(after);
      }
      assert Tables() == Step(s, e);
      StepFrame(s, e);
      forall i | 0 <= i < |jobs| ensures SettledForNewProcess(s, e, i, jobs[i]) {
        ReregisterOutcome(s, r, labels, now, after, i);
      }
    }

    /**
    A new runner is listed online until its heartbeat grows old, holds nothing, and may claim; no job,
    run or other runner is touched.
    */
    method RegisterRunner(r: RunnerId, name: string, labels: set<string>, scope: Option<RepoId>, now: Time)
      requires r !in runners
      modifies this`runners
      ensures Tables() == Step(old(Tables()), RegisterNew(r, name, labels, scope, now))
      ensures r in runners && ListedOnlineUntil(runners[r], now + STALE_THRESHOLD) && !RefusesClaims(runners[r])
      ensures runners[r].name == name && runners[r].labels == labels && runners[r].repo == scope
      ensures old(Inv(Tables())) ==> !HoldsAny(jobs, r)
      ensures runners - {r} == old(runners)
    {
      runners := runners[r := Runner(name, labels, scope, Online, false, Some(now))];
      assert runners - {r} == old(runners);
      assert old(Inv(Tables())) ==> forall j :: 0 <= j < |jobs| ==> JobOk(jobs[j], old(runners).Keys);
    }

    /**
    Until the threshold has passed since a heartbeat the runner is listed online and no sweep counts a
    job of it as stale; from then on both turn, whatever it was listed as before.
    */
    method RunnerHeartbeat(r: RunnerId, now: Time) returns (reply: Reply)
      modifies this`runners
      ensures Tables() == Step(old(Tables()), Heartbeat(r, now))
      ensures reply == if r in old(runners) then Done else Unauthorized
      ensures reply == Done ==> r in runners && ListedOnlineUntil(runners[r], now + STALE_THRESHOLD)
      ensures reply == Done ==> forall j, at :: 0 <= j < |jobs| && Holds(jobs, r, j) ==>
                                  (StaleJob(Tables(), jobs[j], at) <==> at > now + STALE_THRESHOLD)
      ensures runners - {r} == old(runners) - {r}
    {
      if r !in runners { return Unauthorized; }
      runners := runners[r := runners[r].(lastHeartbeat := Some(now))];
      runners := runners[r := runners[r].(status := Online)];
      return Done;
    }

    /**
    A runner whose session closed is listed offline at once and for good, and would be given a job; what
    it holds stays with it, stale no sooner than before.
    */
    method DeleteSession(r: RunnerId)
      modifies this`runners
      ensures Tables() == Step(old(Tables()), CloseSession(r))
      ensures r in runners ==>
                && (forall at :: EffectiveStatus(runners[r], at) == Offline)
                && !RefusesClaims(runners[r])
      ensures forall j, at :: 0 <= j < |jobs| ==>
                (StaleJob(Tables(), jobs[j], at) <==> StaleJob(old(Tables()), jobs[j], at))
      ensures runners.Keys == old(runners).Keys && runners - {r} == old(runners) - {r}
    {
      if r in runners {
        runners := runners[r := runners[r].(status := Offline)];
        runners := runners[r := runners[r].(busy := false)];
      }
    }

    // ------------------------------------------------------------ claims

    /** The queued jobs that pass a query, oldest first. */
    method OldestFirst(eligible: set<nat>) returns (rows: seq<nat>)
      requires forall i :: i in eligible ==> i < |jobs|
      ensures forall i :: i in rows <==> i in eligible
      ensures ByAge(jobs, rows)
    {
      rows := [];
      for i := 0 to |jobs|
        invariant forall k :: k in rows <==> k < i && k in eligible
        invariant ByAge(jobs, rows)
      {
        if i in eligible {
          rows := InsertByAge(rows, i);
        }
      }
    }

    method InsertByAge(rows: seq<nat>, i: nat) returns (res: seq<nat>)
      requires i < |jobs| && ByAge(jobs, rows)
      ensures forall k :: k in res <==> k == i || k in rows
      ensures ByAge(jobs, res)
    {
      var at := |rows|;
      while at > 0 && jobs[i].createdAt < jobs[rows[at - 1]].createdAt
        invariant 0 <= at <= |rows|
        invariant forall k :: at <= k < |rows| ==> jobs[i].createdAt < jobs[rows[k]].createdAt
      {
        at := at - 1;
      }
      InsertedByAge(jobs, rows, at, i);
      InsertedMembers(rows, at, i);
      res := rows[..at] + [i] + rows[at..];
    }

    method Take(r: RunnerId, j: nat, now: Time)
      requires r in runners && j < |jobs|
      modifies this
      ensures Tables() == Claimed(old(Tables()), r, j, now)
    {
      jobs := jobs[j := jobs[j].(status := InProgress, runner := Some(r), runnerName := Some(runners[r].name),
                                 startedAt := Some(now))];
      runners := runners[r := runners[r].(busy := true, status := Busy)];
      var k := jobs[j].runId;
      if k in runs && runs[k].status == RunQueued {
        runs := runs[k := runs[k].(status := RunInProgress)];
      }
    }

    /** One pass of the custom long poll, after its sweep: hands out an oldest job open to the runner, if any is. */
    method PollForJob(r: RunnerId, labels: set<string>, now: Time) returns (claimed: Option<nat>)
      requires r in runners
      modifies this
      ensures claimed.Some? <==> SomeOpenToCustom(old(Tables()), r, labels)
      ensures claimed.Some? ==>
                && Tables() == Step(old(Tables()), ClaimCustom(r, labels, claimed.value, now))
                && OpenToCustom(old(Tables()), r, labels, claimed.value)
                && NoOlderOpenToCustom(old(Tables()), r, labels, claimed.value)
                && |jobs| == |old(jobs)|
                && HandedOut(old(jobs)[claimed.value], jobs[claimed.value], r, old(runners)[r].name, now)
      ensures claimed.None? ==> Tables() == old(Tables())
    {
      claimed := FirstOpenToCustom(r, labels);
      if claimed.Some? {
        CustomGranted(Tables(), r, labels, claimed.value, now);
        Take(r, claimed.value, now);
      }
    }

    /** The loop over the queued jobs in reach, oldest first, that stops at one whose labels the runner has. */
    method FirstOpenToCustom(r: RunnerId, labels: set<string>) returns (found: Option<nat>)
      requires r in runners
      ensures found.Some? ==>
                OpenToCustom(Tables(), r, labels, found.value) && NoOlderOpenToCustom(Tables(), r, labels, found.value)
      ensures found.None? ==> !SomeOpenToCustom(Tables(), r, labels)
    {
      var scope := runners[r].repo;
      var eligible := set i | 0 <= i < |jobs| && jobs[i].status == Queued
                              && jobs[i].runId in runs && runs[jobs[i].runId].status != RunCompleted
                              && (scope == None || scope == Some(runs[jobs[i].runId].repo));
      var rows := OldestFirst(eligible);
      for k := 0 to |rows|
        invariant forall i :: 0 <= i < |jobs| && i in rows[..k] ==> !RunsOn(jobs[i], labels)
      {
        var j := rows[k];
        assert j in rows && j in eligible;
        assert rows[..k + 1] == rows[..k] + [j];
        RunsOnIff(jobs[j], labels);
        if RequiredLabels(jobs[j]) <= labels {
          forall i | 0 <= i < |jobs| && OpenToCustom(Tables(), r, labels, i)
            ensures jobs[j].createdAt <= jobs[i].createdAt
          {
            assert i in eligible;
            FirstFitIsOldest(jobs, rows, k, i);
          }
          return Some(j);
        }
      }
      assert rows[..|rows|] == rows;
      assert forall i :: 0 <= i < |jobs| && OpenToCustom(Tables(), r, labels, i) ==> i in eligible;
      return None;
    }

    /** The upstream protocol's claim: refused while the row says busy in either way. */
    method ClaimNextJob(r: RunnerId, now: Time) returns (claimed: Option<nat>)
      requires r in runners
      modifies this
      ensures claimed.Some? <==>
                !old(runners)[r].busy && old(runners)[r].status != Busy && SomeOpenToUpstream(old(Tables()), r)
      ensures claimed.Some? ==>
                && Tables() == Step(old(Tables()), ClaimUpstream(r, claimed.value, now))
                && OpenToUpstream(old(Tables()), r, claimed.value)
                && NoOlderOpen(old(Tables()), r, claimed.value)
                && |jobs| == |old(jobs)|
                && HandedOut(old(jobs)[claimed.value], jobs[claimed.value], r, old(runners)[r].name, now)
      ensures claimed.None? ==> Tables() == old(Tables())
    {
      if runners[r].busy || runners[r].status == Busy {
        return None;
      }
      claimed := FirstOpenToUpstream(r);
      if claimed.Some? {
        UpstreamGranted(Tables(), r, claimed.value, now);
        Take(r, claimed.value, now);
      }
    }

    method FirstOpenToUpstream(r: RunnerId) returns (found: Option<nat>)
      requires r in runners
      ensures found.Some? ==> OpenToUpstream(Tables(), r, found.value) && NoOlderOpen(Tables(), r, found.value)
      ensures found.None? ==> !SomeOpenToUpstream(Tables(), r)
    {
      var scope := runners[r].repo;
      var eligible := set i | 0 <= i < |jobs| && jobs[i].status == Queued && jobs[i].runner == None
                              && jobs[i].runId in runs
                              && (scope == None || scope == Some(runs[jobs[i].runId].repo));
      var rows := OldestFirst(eligible);
      for k := 0 to |rows|
        invariant forall i :: 0 <= i < |jobs| && i in rows[..k] ==> !RunsOn(jobs[i], runners[r].labels)
      {
        var j := rows[k];
        assert j in rows && j in eligible;
        assert rows[..k + 1] == rows[..k] + [j];
        RunsOnIff(jobs[j], runners[r].labels);
        if RequiredLabels(jobs[j]) <= runners[r].labels {
          forall i | 0 <= i < |jobs| && OpenToUpstream(Tables(), r, i)
            ensures jobs[j].createdAt <= jobs[i].createdAt
          {
            assert i in eligible;
            FirstFitIsOldest(jobs, rows, k, i);
          }
          return Some(j);
        }
      }
      assert rows[..|rows|] == rows;
      assert forall i :: 0 <= i < |jobs| && OpenToUpstream(Tables(), r, i) ==> i in eligible;
      return None;
    }

    // ------------------------------------------------------------ progress and completion

    method UpdateJobProgress(r: RunnerId, j: nat, steps: Option<seq<StepRow>>) returns (reply: Reply)
      modifies this`jobs
      ensures Tables() == Step(old(Tables()), Progress(r, j, steps))
      ensures reply == Done ==>
                && j < |jobs| == |old(jobs)|
                && jobs[j] == old(jobs)[j].(steps := if steps.Some? then steps.value else old(jobs)[j].steps)
      ensures reply == if r !in runners then Unauthorized
                       else if Owns(old(jobs), r, j) then Done else NotFound
    {
      if r !in runners { return Unauthorized; }
      if j >= |jobs| || jobs[j].runner != Some(r) { return NotFound; }
      if steps.Some? {
        jobs := jobs[j := jobs[j].(steps := steps.value)];
      }
      return Done;
    }

    method CompleteJob(r: RunnerId, j: nat, conclusion: string, steps: Option<seq<StepRow>>, now: Time,
                       after: seq<Dispatch>)
      returns (reply: Reply, answer: string)
      modifies this
      ensures Tables() == Step(old(Tables()), CompleteCustom(r, j, conclusion, steps, now, after))
      ensures reply == if r !in old(runners) then Unauthorized
                       else if Owns(old(jobs), r, j) then Done else NotFound
      ensures reply == Done ==> answer == if Cancelled(old(jobs)[j]) then "cancelled" else conclusion
      ensures reply == Done ==>
                && r in runners && FreeRow(old(runners)[r], runners[r])
                && |jobs| == |old(jobs)|
                && if answer == "cancelled" && Cancelled(old(jobs)[j]) then jobs == old(jobs)
                   else
                     && ConcludedAs(old(jobs)[j], jobs[j], conclusion, now)
                     && jobs[j].steps == if steps.Some? then steps.value else old(jobs)[j].steps
    {
      CompleteCustomOutcome(Tables(), r, j, conclusion, steps, now, after);
      answer := "";
      if r !in runners { return Unauthorized, answer; }
      if j >= |jobs| || jobs[j].runner != Some(r) { return NotFound, answer; }
      if jobs[j].status == Completed && jobs[j].conclusion == Some("cancelled") {
        runners := runners[r := runners[r].(busy := false, status := Online)];
        return Done, "cancelled";
      }
      var job := jobs[j].(status := Completed, conclusion := Some(conclusion), completedAt := Some(now));
      if steps.Some? {
        job := job.(steps := steps.value);
      }
      jobs := jobs[j := job];
      runners := runners[r := runners[r].(busy := false, status := Online)];
      Conclude(after);
      return Done, conclusion;
    }

    method CompleteUpstreamJob(r: RunnerId, j: nat, result: ResultCode, now: Time, after: seq<Dispatch>)
      returns (reply: Reply)
      modifies this
      ensures Tables() == Step(old(Tables()), Event.CompleteUpstream(r, j, result, now, after))
      ensures reply == if r !in old(runners) then Unauthorized else if j < |old(jobs)| then Done else NotFound
      ensures reply == Done ==> ReportTaken(old(Tables()), Tables(), r, j, ConclusionOf(result), now)
    {
      CompleteUpstreamOutcome(Tables(), r, j, result, now, after);
      if r !in runners { return Unauthorized; }
      if j >= |jobs| { return NotFound; }
      jobs := jobs[j := jobs[j].(status := Completed, conclusion := Some(ConclusionOf(result)),
                                 completedAt := Some(now))];
      if ConclusionOf(result) == "success" {
        CompleteQueuedSteps(j, result);
      }
      assert jobs == old(jobs)[j := UpstreamConcluded(old(jobs)[j], result, now)];
      runners := runners[r := runners[r].(busy := false, status := Online)];
      Conclude(after);
      return Done;
    }

    /**
    The result a job-request update carries: the body's, else the query's, else - when the update says
    the job completed - the default, or the text of the null the body gave.
    */
    static function RequestedResult(body: BodyResult, query: Option<string>, saysCompleted: bool): Option<ResultCode> {
      if body.Given? then Some(body.result)
      else if query.Some? then Some(Word(query.value))
      else if !saysCompleted then None
      else Some(Word(if body.NullResult? then "None" else "Succeeded"))
    }

    method ReadResult(body: BodyResult, query: Option<string>, saysCompleted: bool) returns (sent: Option<ResultCode>)
      ensures sent == RequestedResult(body, query, saysCompleted)
    {
      sent := None;
      if body.Given? {
        sent := Some(body.result);
      } else if query.Some? {
        sent := Some(Word(query.value));
      } else if saysCompleted {
        sent := Some(Word(if body.NullResult? then "None" else "Succeeded"));
      }
    }

    /** An update without a result is the runner's acknowledgement: it is answered and changes nothing. */
    method UpdateJobRequest(r: RunnerId, j: nat, body: BodyResult, query: Option<string>, saysCompleted: bool,
                            now: Time,
                            after: seq<Dispatch>)
      returns (reply: Reply)
      modifies this
      ensures Tables()
           == Step(old(Tables()), CompleteRequest(r, j, RequestedResult(body, query, saysCompleted), now, after))
      ensures var sent := RequestedResult(body, query, saysCompleted);
              reply == Done && sent.Some? ==>
                ReportTaken(old(Tables()), Tables(), r, j, ConclusionOf(sent.value), now)
      ensures reply == if r !in old(runners) then Unauthorized
                       else if Owns(old(jobs), r, j) then Done else NotFound
    {
      if r !in runners { return Unauthorized; }
      if j >= |jobs| || jobs[j].runner != Some(r) { return NotFound; }
      var sent := ReadResult(body, query, saysCompleted);
      reply := Done;
      if sent.Some? {
        reply := CompleteUpstreamJob(r, j, sent.value, now, after);
      }
    }

    /** The same with DELETE, which always completes the job, with success if no other result is given. */
    method DeleteJobRequest(r: RunnerId, j: nat, query: Option<string>, now: Time, after: seq<Dispatch>)
      returns (reply: Reply)
      modifies this
      ensures Tables()
           == Step(old(Tables()), CompleteRequest(r, j, RequestedResult(NoResult, query, true), now, after))
      ensures reply == NoContent ==>
                ReportTaken(old(Tables()), Tables(), r, j, DeletionConclusion(query), now)
      ensures reply == if r !in old(runners) then Unauthorized
                       else if Owns(old(jobs), r, j) then NoContent else NotFound
    {
      if r !in runners { return Unauthorized; }
      if j >= |jobs| || jobs[j].runner != Some(r) { return NotFound; }
      var result := Word(if query.Some? then query.value else "Succeeded");
      assert DeletionConclusion(query) == ConclusionOf(result) by { DefaultResults(); }
      var _ := CompleteUpstreamJob(r, j, result, now, after);
      return NoContent;
    }

    static function DeletionConclusion(query: Option<string>): string {
      if query.Some? then ConclusionOf(Word(query.value)) else "success"
    }

    method UpdateTimeline(j: nat, records: seq<TimelineRecord>)
      requires j < |jobs|
      modifies this`jobs
      ensures Tables() == Step(old(Tables()), Timeline(j, records))
    {
      if records == [] || jobs[j].steps == [] {
        assert jobs[j := jobs[j]] == jobs;
        return;
      }
      var steps := jobs[j].steps;
      ghost var before := steps;
      assert records[0..] == records;
      for k := 0 to |records|
        invariant jobs == old(jobs)
        invariant ApplyRecords(records[k..], steps) == ApplyRecords(records, before)
      {
        assert records[k..][0] == records[k] && records[k..][1..] == records[k + 1..];
        steps := FileRecord(records[k], steps);
      }
      assert records[|records|..] == [];
      jobs := jobs[j := jobs[j].(steps := steps)];
    }

    /** The inner loop of a timeline update: the first step a record names takes its report. */
    method FileRecord(record: TimelineRecord, steps: seq<StepRow>) returns (r: seq<StepRow>)
      ensures r == ApplyRecord(record, steps)
    {
      for i := 0 to |steps|
        invariant forall k :: 0 <= k < i ==> !Names(record, steps[k])
      {
        if Names(record, steps[i]) {
          var step := steps[i];
          if record.state.Some? {
            step := step.(status := Some(StateToStatus(record.state.value)));
          }
          if record.result.Some? {
            step := step.(conclusion := Some(ConclusionOf(record.result.value)));
          }
          RecordReachesFirstNamed(record, steps, i);
          return steps[i := step];
        }
      }
      RecordReachesFirstNamed(record, steps, |steps|);
      return steps;
    }

    // ------------------------------------------------------------ operators

    method RequeueJob(j: nat) returns (reply: Reply)
      modifies this`jobs
      ensures reply == NoContent ==> j < |jobs| == |old(jobs)| && QueuedAgain(old(jobs)[j], jobs[j])
      ensures Tables() == Step(old(Tables()), OperatorRequeue(j))
      ensures reply == if j >= |old(jobs)| then NotFound
                       else if old(jobs)[j].status == Completed then Conflict else NoContent
    {
      if j >= |jobs| { return NotFound; }
      if jobs[j].status == Completed { return Conflict; }
      Requeue(j);
      return NoContent;
    }

    method FailLostJob(j: nat, now: Time, after: seq<Dispatch>) returns (reply: Reply)
      modifies this
      ensures reply == NoContent ==>
                && j < |jobs| == |old(jobs)|
                && if HadStarted(old(jobs)[j]) then FailedAsLost(old(jobs)[j], jobs[j], now)
                   else QueuedAgain(old(jobs)[j], jobs[j])
      ensures Tables() == Step(old(Tables()), OperatorFail(j, now, after))
      ensures reply == if j >= |old(jobs)| then NotFound
                       else if old(jobs)[j].status != InProgress then Conflict else NoContent
    {
      OperatorOutcome(Tables(), j, now, after);
      if j >= |jobs| { return NotFound; }
      if jobs[j].status != InProgress { return Conflict; }
      var failed := LoseJob(j, now);
      if failed {
        Conclude(after);
      }
      return NoContent;
    }

    method CancelWorkflowRun(run: RunId, now: Time) returns (found: bool)
      modifies this
      ensures Tables() == Step(old(Tables()), CancelRun(run, now))
      ensures found == (run in old(runs))
      ensures found && !(old(runs)[run].status == RunCompleted && old(runs)[run].conclusion != Some("cancelled")) ==>
                && |jobs| == |old(jobs)|
                && forall j :: 0 <= j < |jobs| ==>
                     if old(jobs)[j].runId == run && old(jobs)[j].status != Completed
                     then CancelledNow(old(jobs)[j], jobs[j], now) else jobs[j] == old(jobs)[j]
    {
      CancelRunOutcome(Tables(), run, now);
      if run !in runs { return false; }
      if runs[run].status == RunCompleted && runs[run].conclusion != Some("cancelled") { return true; }
      ghost var before := jobs;
      for i := 0 to |jobs|
        invariant |jobs| == |before| && runners == old(runners) && runs == old(runs)
        invariant forall k :: 0 <= k < i ==> jobs[k] == CancelledJob(before[k], run, now)
        invariant forall k :: i <= k < |jobs| ==> jobs[k] == before[k]
      {
        if jobs[i].runId == run && jobs[i].status != Completed {
          jobs := jobs[i := jobs[i].(status := Completed, conclusion := Some("cancelled"), completedAt := Some(now))];
        }
      }
      runs := runs[run := runs[run].(status := RunCompleted, conclusion := Some("cancelled"))];
      assert jobs == DoCancelRun(old(Tables()), run, now).jobs;
      return true;
    }

    /** A runner still executing something is refused, because its job would be stranded. */
    method DeleteRunnerAndDetachHistory(r: RunnerId) returns (reply: Reply)
      requires r in runners
      modifies this
      ensures Tables() == Step(old(Tables()), DeleteRunner(r))
      ensures reply == if HoldsAny(old(jobs), r) then Refused else NoContent
      ensures reply == NoContent ==>
                && runners == old(runners) - {r} && |jobs| == |old(jobs)|
                && forall j :: 0 <= j < |jobs| ==> jobs[j].runner != Some(r)
    {
      DeleteRunnerOutcome(Tables(), r);
      for i := 0 to |jobs|
        invariant Tables() == old(Tables())
        invariant forall k :: 0 <= k < i ==> !Holds(jobs, r, k)
      {
        if jobs[i].runner == Some(r) && jobs[i].status == InProgress {
          assert Holds(jobs, r, i);
          return Refused;
        }
      }
      ghost var before := jobs;
      for i := 0 to |jobs|
        invariant |jobs| == |before| && runners == old(runners) && runs == old(runs)
        invariant forall k :: 0 <= k < i ==> jobs[k] == DetachedJob(before[k], r)
        invariant forall k :: i <= k < |jobs| ==> jobs[k] == before[k]
      {
        if jobs[i].runner == Some(r) {
          jobs := jobs[i := jobs[i].(runner := None)];
        }
      }
      runners := runners - {r};
      assert jobs == DoDeleteRunner(old(Tables()), r).jobs;
      return NoContent;
    }
  }

  /** Which result an update of a job request carries: the body's before the query's, and a default only at the end. */
  lemma RequestedConclusions(body: BodyResult, query: Option<string>, saysCompleted: bool)
    ensures var sent := Service.RequestedResult(body, query, saysCompleted);
            && (sent == None <==> !body.Given? && query == None && !saysCompleted)
            && (body.Given? ==> sent == Some(body.result))
            && (!body.Given? && query.Some? ==> sent == Some(Word(query.value)))
            && (body == NoResult && query == None && saysCompleted ==> ConclusionOf(sent.value) == "success")
            && (body == NullResult && query == None && saysCompleted ==> ConclusionOf(sent.value) == "failure")
  {
    DefaultResults();
  }
}
