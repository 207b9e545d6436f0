/**
Late callers: a finished job should keep its conclusion, and a runner whose claim was taken back can
no longer write to the job.  The second holds; this file says exactly when the first does.
*/
module ActionsFencing {
  import opened Wrappers
  import opened ResultCodes
  import opened ActionsModel
  import opened ActionsInvariants

  // ---------------------------------------------------------------- settled conclusions

  /**
  A completion that gives a finished job another conclusion: from the runner its row still names, by the
  custom protocol if it was not cancelled, or from any runner by the upstream route that takes any job.
  */
  predicate Reconcludes(s: State, e: Event, j: nat)
    requires j < |s.jobs|
  {
    match e
    case CompleteCustom(r, k, conclusion, _, _, _) =>
      k == j && r in s.runners && Owns(s.jobs, r, j) && !Cancelled(s.jobs[j]) && Differs(s.jobs[j], conclusion)
    case CompleteUpstream(r, k, result, _, _) =>
      k == j && r in s.runners && Differs(s.jobs[j], ConclusionOf(result))
    case CompleteRequest(r, k, sent, _, _) =>
      && k == j && r in s.runners && Owns(s.jobs, r, j)
      && sent.Some? && Differs(s.jobs[j], ConclusionOf(sent.value))
    case _ => false
  }

  predicate Differs(job: Job, conclusion: string) {
    job.conclusion != Some(conclusion)
  }

  /** A finished job stays finished, and keeps its conclusion exactly when the request does not give it another. */
  lemma ConclusionKeptIff(s: State, e: Event, j: nat)
    requires j < |s.jobs| && s.jobs[j].status == Completed
    ensures j < |Step(s, e).jobs| && Step(s, e).jobs[j].status == Completed
    ensures Step(s, e).jobs[j].conclusion == s.jobs[j].conclusion <==> !Reconcludes(s, e, j)
  {
    StepFrame(s, e);
    var m := Effect(s, e);
    assert j < |m.jobs| && MayDispatch(m.jobs[j], Step(s, e).jobs[j]);
    assert m.jobs[j].status == Completed;
  }

  predicate NeverReconcluded(s: State, es: seq<Event>, j: nat)
    requires j < |s.jobs| && s.jobs[j].status == Completed
    decreases |es|
  {
    es == []
    || (!Reconcludes(s, es[0], j) && (ConclusionKeptIff(s, es[0], j); NeverReconcluded(Step(s, es[0]), es[1..], j)))
  }

  /** After every request of the run the job has this conclusion. */
  predicate ConcludedThroughout(s: State, es: seq<Event>, j: nat, conclusion: Option<string>)
    decreases |es|
  {
    && j < |s.jobs| && s.jobs[j].conclusion == conclusion
    && (es == [] || ConcludedThroughout(Step(s, es[0]), es[1..], j, conclusion))
  }

  /** Over every run the conclusion of a finished job stands throughout exactly when no completion replaces it. */
  lemma {:induction false} ConclusionStandsIff(s: State, es: seq<Event>, j: nat)
    requires j < |s.jobs| && s.jobs[j].status == Completed
    ensures ConcludedThroughout(s, es, j, s.jobs[j].conclusion) <==> NeverReconcluded(s, es, j)
    decreases |es|
  {
    if es != [] {
      ConclusionKeptIff(s, es[0], j);
      if !Reconcludes(s, es[0], j) {
        ConclusionStandsIff(Step(s, es[0]), es[1..], j);
      }
    }
  }

  /** A job failed because its runner was lost, which the runner's own late report then calls a success. */
  lemma LateReportUndoesFailure(s: State, r: RunnerId, j: nat, now: Time, ackNow: Time, later: Time)
    requires Holds(s.jobs, r, j) && StaleJob(s, s.jobs[j], now) && Started(s.jobs[j].steps)
    ensures var lost := Step(s, Sweep(now, ackNow, []));
            && lost.jobs[j].status == Completed && lost.jobs[j].conclusion == Some("failure")
            && Reconcludes(lost, CompleteCustom(r, j, "success", None, later, []), j)
            && Step(lost, CompleteCustom(r, j, "success", None, later, [])).jobs[j].conclusion == Some("success")
  {
    var sweep := Sweep(now, ackNow, []);
    var lost := Step(s, sweep);
    assert lost == Effect(s, sweep);
    assert StaleSettled(s, now).jobs[j] == Lost(s.jobs[j], now);
    assert lost.jobs[j].runner == Some(r);
    StepFrame(lost, CompleteCustom(r, j, "success", None, later, []));
  }

  // ---------------------------------------------------------------- cancellation

  /** An upstream completion that reaches job j with a result other than cancelled. */
  predicate Overwrites(s: State, e: Event, j: nat) {
    match e
    case CompleteUpstream(r, k, result, _, _) =>
      k == j && r in s.runners && ConclusionOf(result) != "cancelled"
    case CompleteRequest(r, k, result, _, _) =>
      k == j && r in s.runners && Owns(s.jobs, r, j) && result.Some? && ConclusionOf(result.value) != "cancelled"
    case _ => false
  }

  /**
  A cancelled job stays completed whatever comes, and stays cancelled unless an upstream completion
  overwrites it.
  */
  lemma CancellationKeptIff(s: State, e: Event, j: nat)
    requires j < |s.jobs| && Cancelled(s.jobs[j])
    ensures j < |Step(s, e).jobs| && Step(s, e).jobs[j].status == Completed
    ensures Cancelled(Step(s, e).jobs[j]) <==> !Overwrites(s, e, j)
  {
    ConclusionKeptIff(s, e, j);
  }

  /** The late upstream callback that turns a cancelled job into a successful one. */
  lemma UpstreamCallbackUndoesCancellation(s: State, r: RunnerId, j: nat, now: Time)
    requires r in s.runners && j < |s.jobs| && Cancelled(s.jobs[j])
    ensures Step(s, CompleteUpstream(r, j, Number(0), now, [])).jobs[j].conclusion == Some("success")
  {
    StepFrame(s, CompleteUpstream(r, j, Number(0), now, []));
  }

  predicate UpstreamCompletion(e: Event, j: nat) {
    (e.CompleteUpstream? || e.CompleteRequest?) && e.j == j
  }

  /** Cancellation is final over every run in which no upstream completion names the job. */
  lemma {:induction false} CancellationIsFinal(s: State, es: seq<Event>, j: nat)
    requires j < |s.jobs| && Cancelled(s.jobs[j])
    requires forall i :: 0 <= i < |es| ==> !UpstreamCompletion(es[i], j)
    ensures j < |RunAll(s, es).jobs| && Cancelled(RunAll(s, es).jobs[j])
    decreases |es|
  {
    if es != [] {
      assert !UpstreamCompletion(es[0], j);
      CancellationKeptIff(s, es[0], j);
      CancellationIsFinal(Step(s, es[0]), es[1..], j);
    }
  }

  // ---------------------------------------------------------------- stale holders

  predicate ClaimAttempt(e: Event, r: RunnerId, j: nat) {
    (e.ClaimCustom? || e.ClaimUpstream?) && e.r == r && e.j == j
  }

  /** The requests with which a runner writes to a job it believes it holds. */
  predicate HolderRequest(e: Event, r: RunnerId, j: nat) {
    (e.Progress? || e.CompleteCustom? || e.CompleteRequest?) && e.r == r && e.j == j
  }

  predicate NotHolder(s: State, r: RunnerId, j: nat) {
    j < |s.jobs| && s.jobs[j].runner != Some(r)
  }

  lemma EffectKeepsNonHolder(s: State, e: Event, r: RunnerId, j: nat)
    requires NotHolder(s, r, j) && !ClaimAttempt(e, r, j)
    ensures NotHolder(Effect(s, e), r, j)
  {
    if e.Sweep? {
      assert StaleSettled(s, e.now).jobs[j].runner != Some(r);
    }
  }

  /** Only a claim makes a runner the job's holder again; until then its requests are refused unchanged. */
  lemma FormerHolderIsFenced(s: State, e: Event, r: RunnerId, j: nat)
    requires NotHolder(s, r, j) && !ClaimAttempt(e, r, j)
    ensures NotHolder(Step(s, e), r, j)
    ensures HolderRequest(e, r, j) ==> Step(s, e) == s
  {
    EffectKeepsNonHolder(s, e, r, j);
    StepFrame(s, e);
    assert MayDispatch(Effect(s, e).jobs[j], Step(s, e).jobs[j]);
    if HolderRequest(e, r, j) {
      assert Effect(s, e) == s && After(s, e) == [];
    }
  }

  /** The run with the former holder's requests on job j taken out. */
  function WithoutHolderRequests(es: seq<Event>, r: RunnerId, j: nat): seq<Event>
    decreases |es|
  {
    if es == [] then []
    else (if HolderRequest(es[0], r, j) then [] else [es[0]]) + WithoutHolderRequests(es[1..], r, j)
  }

  /**
  Until it claims the job again, a former holder's requests leave no trace: the run without them
  ends in the same tables.
  */
  lemma {:induction false} FormerHolderLeavesNoTrace(s: State, es: seq<Event>, r: RunnerId, j: nat)
    requires NotHolder(s, r, j)
    requires forall i :: 0 <= i < |es| ==> !ClaimAttempt(es[i], r, j)
    ensures RunAll(s, es) == RunAll(s, WithoutHolderRequests(es, r, j))
    ensures NotHolder(RunAll(s, es), r, j)
    decreases |es|
  {
    if es != [] {
      assert !ClaimAttempt(es[0], r, j);
      FormerHolderIsFenced(s, es[0], r, j);
      FormerHolderLeavesNoTrace(Step(s, es[0]), es[1..], r, j);
      var rest := WithoutHolderRequests(es[1..], r, j);
      if !HolderRequest(es[0], r, j) {
        var w := [es[0]] + rest;
        assert w[0] == es[0] && w[1..] == rest;
        assert RunAll(s, w) == RunAll(Step(s, es[0]), rest);
      } else {
        assert WithoutHolderRequests(es, r, j) == rest;
      }
    }
  }

  /** Whatever put a held job back on the queue, its holder is fenced from then on until it claims the job again. */
  lemma RequeueFences(s: State, e: Event, es: seq<Event>, r: RunnerId, j: nat)
    requires Inv(s) && Holds(s.jobs, r, j)
    requires j < |Step(s, e).jobs| && Step(s, e).jobs[j].status == Queued
    requires forall i :: 0 <= i < |es| ==> !ClaimAttempt(es[i], r, j)
    ensures RunAll(Step(s, e), es) == RunAll(Step(s, e), WithoutHolderRequests(es, r, j))
  {
    StepKeepsInv(s, e);
    assert JobOk(Step(s, e).jobs[j], Step(s, e).runners.Keys);
    FormerHolderLeavesNoTrace(Step(s, e), es, r, j);
  }
}
