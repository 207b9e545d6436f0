/** The stale-runner sweep: what it settles, what it counts, and what it leaves behind. */
module ActionsSweep {
  import opened Wrappers
  import opened ActionsModel
  import opened ActionsInvariants
  import ActionsClaims

  /** The jobs the heartbeat rule settles. */
  function StaleIds(s: State, now: Time): (ids: set<nat>)
  {
    set i | 0 <= i < |s.jobs| && StaleJob(s, s.jobs[i], now)
  }

  /** The jobs the acknowledgement rule settles, in the table as it is when that rule is reached. */
  function AckIds(s: State, now: Time): (ids: set<nat>)
  {
    set i | 0 <= i < |s.jobs| && Unacknowledged(s.jobs[i], now)
  }

  /** The number a sweep reports: stale jobs plus requeued claims. */
  function SettledCount(s: State, now: Time, ackNow: Time): nat {
    |StaleIds(s, now)| + |AckIds(StaleSettled(s, now), ackNow)|
  }

  /** The jobs that were in progress before the sweep and no longer are, before any dispatch. */
  function LeftProgress(s: State, now: Time, ackNow: Time): set<nat> {
    set i | 0 <= i < |s.jobs| && s.jobs[i].status == InProgress
            && Settled(s, now, ackNow).jobs[i].status != InProgress
  }

  /**
  No job is settled twice, and the count a sweep reports is the number of jobs it took out of
  progress.  Each of them failed exactly when its runner was stale and one of its steps had
  started; the others are queued again; a job neither rule names is not touched.
  */
  lemma SweepSettlesEachOnce(s: State, now: Time, ackNow: Time)
    ensures StaleIds(s, now) !! AckIds(StaleSettled(s, now), ackNow)
    ensures SettledCount(s, now, ackNow) == |LeftProgress(s, now, ackNow)|
    ensures forall i :: 0 <= i < |s.jobs| && i !in LeftProgress(s, now, ackNow) ==>
              Settled(s, now, ackNow).jobs[i] == s.jobs[i]
    ensures forall i :: 0 <= i < |s.jobs| && i in LeftProgress(s, now, ackNow) ==>
              var b := Settled(s, now, ackNow).jobs[i];
              if Started(s.jobs[i].steps) then b.status == Completed && b.conclusion == Some("failure")
              else b.status == Queued && b.runner == None && b.startedAt == None
  {
    var m := StaleSettled(s, now);
    var stale, ack := StaleIds(s, now), AckIds(m, ackNow);
    forall i | i in ack ensures i !in stale {
      assert m.jobs[i].status == InProgress;
    }
    forall i | 0 <= i < |s.jobs|
      ensures i in LeftProgress(s, now, ackNow) <==> i in stale + ack
      ensures i !in LeftProgress(s, now, ackNow) ==> Settled(s, now, ackNow).jobs[i] == s.jobs[i]
    {
      if StaleJob(s, s.jobs[i], now) {
        assert m.jobs[i] == Lost(s.jobs[i], now);
      } else {
        assert m.jobs[i] == s.jobs[i];
      }
    }
    assert LeftProgress(s, now, ackNow) == stale + ack;
    assert |stale + ack| == |stale| + |ack|;
  }

  /**
  What a sweep guarantees to the requests after it: no in-progress job sits on a registered runner
  whose heartbeat is older than the cutoff, and none past the acknowledgement window has every step
  untouched.  The dispatch calls at the end cannot bring one back.
  */
  lemma SweepLeavesNothingStale(s: State, now: Time, ackNow: Time, after: seq<Dispatch>)
    ensures var t := Step(s, Sweep(now, ackNow, after));
            forall i :: 0 <= i < |t.jobs| ==>
              !StaleJob(t, t.jobs[i], now) && !Unacknowledged(t.jobs[i], ackNow)
  {
    var t := Step(s, Sweep(now, ackNow, after));
    var m := StaleSettled(s, now);
    var s1 := Settled(s, now, ackNow);
    StepFrame(s, Sweep(now, ackNow, after));
    forall i | 0 <= i < |t.jobs|
      ensures !StaleJob(t, t.jobs[i], now) && !Unacknowledged(t.jobs[i], ackNow)
    {
      assert MayDispatch(s1.jobs[i], t.jobs[i]);
      if t.jobs[i].status == InProgress {
        assert t.jobs[i] == s1.jobs[i] == m.jobs[i] == s.jobs[i];
        assert !Unacknowledged(m.jobs[i], ackNow);
        assert !StaleJob(s, s.jobs[i], now);
      }
    }
  }

  /** Sweeping again at the same instants settles nothing and changes nothing. */
  lemma SweepIsIdempotent(s: State, now: Time, ackNow: Time, after: seq<Dispatch>, again: seq<Dispatch>)
    ensures var t := Step(s, Sweep(now, ackNow, after));
            && SettledCount(t, now, ackNow) == 0
            && Step(t, Sweep(now, ackNow, again)) == t
  {
    var t := Step(s, Sweep(now, ackNow, after));
    SweepLeavesNothingStale(s, now, ackNow, after);
    var m := StaleSettled(t, now);
    forall r | r in t.runners ensures m.runners[r] == t.runners[r] {
      assert forall j :: 0 <= j < |t.jobs| && Holds(t.jobs, r, j) ==> !StaleJob(t, t.jobs[j], now);
    }
    assert m.jobs == t.jobs;
    assert m.runners == t.runners;
    assert m == t;
    assert AckSettled(t, ackNow).jobs == t.jobs;
    assert StaleIds(t, now) == {} && AckIds(m, ackNow) == {};
  }

  /** Beyond the settled jobs and their runners, a sweep writes only what its dispatch calls write. */
  lemma SweepFrame(s: State, now: Time, ackNow: Time, after: seq<Dispatch>)
    ensures var t := Step(s, Sweep(now, ackNow, after));
            && |t.jobs| == |s.jobs|
            && (forall i :: 0 <= i < |s.jobs| && i !in LeftProgress(s, now, ackNow) ==>
                  MayDispatch(s.jobs[i], t.jobs[i]))
            && (!SweepFails(s, now) ==> forall i :: 0 <= i < |s.jobs| && i !in LeftProgress(s, now, ackNow) ==>
                  t.jobs[i] == s.jobs[i])
            && t.runners.Keys == s.runners.Keys
            && forall r :: r in s.runners ==>
                 if exists i :: i in StaleIds(s, now) && s.jobs[i].runner == Some(r)
                 then t.runners[r] == s.runners[r].(status := Offline, busy := false)
                 else t.runners[r] == s.runners[r]
  {
    var t := Step(s, Sweep(now, ackNow, after));
    SweepSettlesEachOnce(s, now, ackNow);
    StepFrame(s, Sweep(now, ackNow, after));
    forall r | r in s.runners
      ensures (exists i :: i in StaleIds(s, now) && s.jobs[i].runner == Some(r))
         <==> (StaleHeartbeat(s.runners[r], now) && HoldsAny(s.jobs, r))
    {
      if StaleHeartbeat(s.runners[r], now) && HoldsAny(s.jobs, r) {
        var j :| 0 <= j < |s.jobs| && Holds(s.jobs, r, j);
        assert j in StaleIds(s, now);
      }
      if i :| i in StaleIds(s, now) && s.jobs[i].runner == Some(r) {
        assert Holds(s.jobs, r, i);
      }
    }
  }

  // ---------------------------------------------------------------- the listing

  /** Every registered runner has sent a heartbeat: registering counts as one. */
  predicate AllHeartbeats(s: State) {
    forall r :: r in s.runners ==> s.runners[r].lastHeartbeat.Some?
  }

  lemma StepKeepsHeartbeats(s: State, e: Event)
    requires AllHeartbeats(s)
    ensures AllHeartbeats(Step(s, e))
  {
    StepFrame(s, e);
    var m := Effect(s, e);
    forall r | r in m.runners ensures m.runners[r].lastHeartbeat.Some? {
      if r in s.runners { assert s.runners[r].lastHeartbeat.Some?; }
    }
  }

  lemma {:induction false} RunKeepsHeartbeats(s: State, es: seq<Event>)
    requires AllHeartbeats(s)
    ensures AllHeartbeats(RunAll(s, es))
    decreases |es|
  {
    if es != [] {
      StepKeepsHeartbeats(s, es[0]);
      RunKeepsHeartbeats(Step(s, es[0]), es[1..]);
    }
  }

  /** A runner that holds a job with its session closed. */
  predicate OfflineHolder(s: State, r: RunnerId) {
    r in s.runners && s.runners[r].status == Offline && HoldsAny(s.jobs, r)
  }

  /**
  The listing and the sweep share one threshold.  Of a runner that holds a job, the listing says
  offline exactly when the sweep finds the job stale, unless the session was closed with a heartbeat
  that is still fresh; and what the sweep settles is listed offline before and after.
  */
  lemma ListingAgreesWithSweepIff(s: State, j: nat, r: RunnerId, now: Time)
    requires AllHeartbeats(s) && Holds(s.jobs, r, j) && r in s.runners
    ensures (EffectiveStatus(s.runners[r], now) == Offline <==> StaleJob(s, s.jobs[j], now))
       <==> !(OfflineHolder(s, r) && !StaleHeartbeat(s.runners[r], now))
    ensures StaleJob(s, s.jobs[j], now) ==>
              && EffectiveStatus(s.runners[r], now) == Offline
              && EffectiveStatus(StaleSettled(s, now).runners[r], now) == Offline
  {
    assert HoldsAny(s.jobs, r);
  }

  /** What can have set a runner row to offline: its session closing, or a sweep that finds it stale. */
  lemma TurnedOffline(s: State, e: Event, r: RunnerId)
    requires r in Effect(s, e).runners && Effect(s, e).runners[r].status == Offline
    ensures r in s.runners
    ensures s.runners[r].status == Offline || (e.CloseSession? && e.r == r)
              || (e.Sweep? && StaleHeartbeat(s.runners[r], e.now))
  {
  }

  lemma ClosingKeepsHoldings(s: State, r: RunnerId)
    requires r in s.runners
    ensures Step(s, CloseSession(r)).jobs == s.jobs && Step(s, CloseSession(r)).runners.Keys == s.runners.Keys
    ensures Step(s, CloseSession(r)).runners[r].status == Offline
  {
  }

  /** Nothing but closing the session mid-job makes a runner that holds a job one that is offline. */
  lemma OnlyClosingMakesOfflineHolder(s: State, e: Event, r: RunnerId)
    requires !OfflineHolder(s, r)
    ensures OfflineHolder(Step(s, e), r) <==> e.CloseSession? && e.r == r && r in s.runners && HoldsAny(s.jobs, r)
  {
    var t := Step(s, e);
    StepFrame(s, e);
    if e.CloseSession? && e.r == r && r in s.runners {
      ClosingKeepsHoldings(s, r);
    } else if OfflineHolder(t, r) {
      TurnedOffline(s, e, r);
      var i :| 0 <= i < |t.jobs| && Holds(t.jobs, r, i);
      ActionsClaims.HoldingsComeFromClaims(s, e, r, i);
      if e.Sweep? && StaleHeartbeat(s.runners[r], e.now) {
        ActionsClaims.SweptRunnerHoldsNothing(s, e.now, e.ackNow, e.after, r);
      }
    }
  }

  /** Such a runner exists: it closed its session mid-job, and the sweep leaves the job in progress. */
  lemma ClosedSessionIsNotSwept(s: State, j: nat, r: RunnerId, now: Time, closedAt: Time)
    requires Holds(s.jobs, r, j) && r in s.runners && s.runners[r].lastHeartbeat == Some(closedAt)
    requires closedAt <= now <= closedAt + STALE_THRESHOLD
    ensures var t := Step(s, CloseSession(r));
            && EffectiveStatus(t.runners[r], now) == Offline
            && StaleSettled(t, now).jobs[j] == s.jobs[j]
  {
  }
}
