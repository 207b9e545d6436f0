/** Committing under SQLite write contention: `commit_with_sqlite_retry` and the session it drives. */
module DatabaseRetry {
  import opened Integers
  import opened Wrappers

  /** What the database answers to one commit. */
  datatype Answer = Accepted | Locked | Failed

  /** How the call ends: it returns, or raises a retryable error (and why), or lets the other error through. */
  datatype Ending = Returned | Persisted | NotReplayable | Raised

  /** A session: the writes that are durable, those staged since, and how many commits were asked for. */
  datatype Session<M> = Session(durable: seq<M>, staged: seq<M>, commits: nat)

  /** The first attempt the database does not answer with a lock, or the limit. */
  function FirstUnlocked(answers: nat -> Answer, from: nat, limit: nat): (k: nat)
    requires from <= limit
    ensures from <= k <= limit
    ensures forall i :: from <= i < k ==> answers(i) == Locked
    ensures k < limit ==> answers(k) != Locked
    decreases limit - from
  {
    if from == limit || answers(from) != Locked then from else FirstUnlocked(answers, from + 1, limit)
  }

  /** Attempts that can be made: one only, unless the caller can replay its writes after a rollback. */
  function Limit<M>(configured: int, replay: Option<seq<M>>): (n: nat)
    ensures n >= 1
  {
    if replay.None? then 1 else Max(1, configured)
  }

  /** What the attempt with this index commits: the caller's own writes first, the replayed ones after a rollback. */
  function StagedAt<M>(staged: seq<M>, replay: Option<seq<M>>, attempt: nat): seq<M> {
    if attempt == 0 then staged else if replay.None? then [] else replay.value
  }

  function Outcome<M>(before: Session<M>, configured: int, replay: Option<seq<M>>,
                      answers: nat -> Answer): (Session<M>, Ending) {
    var limit := Limit(configured, replay);
    var k := FirstUnlocked(answers, 0, limit);
    if k == limit then
      (Session(before.durable, [], before.commits + limit),
       if limit < Max(1, configured) then NotReplayable else Persisted)
    else
      var staged := StagedAt(before.staged, replay, k);
      if answers(k) == Accepted then (Session(before.durable + staged, [], before.commits + k + 1), Returned)
      else (Session(before.durable, staged, before.commits + k + 1), Raised)
  }

  class DbSession<M> {
    var durable: seq<M>
    var staged: seq<M>
    var commits: nat

    ghost function State(): Session<M>
      reads this
    {
      Session(durable, staged, commits)
    }

    /** A commit either makes the staged writes durable or changes nothing. */
    method Commit(answer: Answer) returns (result: Answer)
      modifies this
      ensures result == answer
      ensures State() == if answer == Accepted then Session(old(durable) + old(staged), [], old(commits) + 1)
                         else Session(old(durable), old(staged), old(commits) + 1)
    {
      commits := commits + 1;
      if answer == Accepted {
        durable := durable + staged;
        staged := [];
      }
      result := answer;
    }

    method Rollback()
      modifies this`staged
      ensures staged == []
    {
      staged := [];
    }

    /** `replay` is what the `before_retry` callback stages, None when the caller gave no callback. */
    method CommitWithRetry(configured: int, replay: Option<seq<M>>, answers: nat -> Answer) returns (ending: Ending)
      modifies this
      ensures (State(), ending) == Outcome(old(State()), configured, replay, answers)
    {
      var attempts := Max(1, configured);
      ghost var limit := Limit(configured, replay);
      var attempt := 0;
      while attempt < attempts
        invariant 0 <= attempt <= attempts
        invariant attempt < limit
        invariant State() == Session(old(durable), StagedAt(old(staged), replay, attempt), old(commits) + attempt)
        invariant FirstUnlocked(answers, 0, limit) == FirstUnlocked(answers, attempt, limit)
      {
        var answer := Commit(answers(attempt));
        if answer == Accepted { return Returned; }
        if answer == Failed { return Raised; }
        Rollback();
        if attempt + 1 >= attempts { return Persisted; }
        if replay.None? { return NotReplayable; }
        staged := staged + replay.value;
        attempt := attempt + 1;
      }
    }
  }

  // ---------------------------------------------------------------- what a caller can rely on

  /** A call that raises leaves nothing durable; it never asks for more commits than it was configured to. */
  lemma RaisingMeansNever<M>(before: Session<M>, configured: int, replay: Option<seq<M>>, answers: nat -> Answer)
    ensures var (after, ending) := Outcome(before, configured, replay, answers);
            && (ending != Returned ==> after.durable == before.durable)
            && before.commits < after.commits <= before.commits + Max(1, configured)
            && (ending != Raised ==> after.staged == [])
  {
  }

  /**
  A normal return means the caller's writes are durable exactly once, whatever the database answered,
  exactly when the first commit was accepted or the callback replays those same writes.
  */
  lemma ReturningMeansOnceIff<M>(before: Session<M>, configured: int, replay: Option<seq<M>>, answers: nat -> Answer)
    requires Outcome(before, configured, replay, answers).1 == Returned
    ensures (Outcome(before, configured, replay, answers).0.durable == before.durable + before.staged)
              <==> answers(0) == Accepted || replay == Some(before.staged)
  {
    var after := Outcome(before, configured, replay, answers).0;
    var k := FirstUnlocked(answers, 0, Limit(configured, replay));
    var written := StagedAt(before.staged, replay, k);
    assert after.durable[|before.durable|..] == written;
    assert (before.durable + before.staged)[|before.durable|..] == before.staged;
  }

  /** Without a callback a call returns only on its first commit, so an empty second commit is never a success. */
  lemma NoReplayNoSecondCommit<M>(before: Session<M>, configured: int, answers: nat -> Answer)
    ensures var (after, ending) := Outcome(before, configured, None, answers);
            && after.commits == before.commits + 1
            && (ending == Returned <==> answers(0) == Accepted)
            && (ending == Returned ==> after.durable == before.durable + before.staged)
  {
  }

  /** Some attempt within the limit is accepted, after locks only. */
  ghost predicate AcceptedAfterLocks(answers: nat -> Answer, limit: nat) {
    exists k: nat :: k < limit && answers(k) == Accepted && forall i: nat :: i < k ==> answers(i) == Locked
  }

  lemma ReplayReturnsIff<M>(before: Session<M>, configured: int, replay: seq<M>, answers: nat -> Answer)
    ensures Outcome(before, configured, Some(replay), answers).1 == Returned
         <==> AcceptedAfterLocks(answers, Max(1, configured))
  {
    var limit := Max(1, configured);
    var first := FirstUnlocked(answers, 0, limit);
    if AcceptedAfterLocks(answers, limit) {
      var k: nat :| k < limit && answers(k) == Accepted && forall i: nat :: i < k ==> answers(i) == Locked;
      assert first == k;
    }
    if Outcome(before, configured, Some(replay), answers).1 == Returned {
      assert answers(first) == Accepted && forall i: nat :: i < first ==> answers(i) == Locked;
    }
  }

  /** The first k commits met a lock, and the next, still allowed, got this answer. */
  ghost predicate AnsweredAt(answers: nat -> Answer, limit: nat, k: nat, answer: Answer) {
    k < limit && answers(k) == answer && forall i: nat :: i < k ==> answers(i) == Locked
  }

  /**
  How a call ends, and what it leaves: accepted at attempt k it has made the writes of that attempt durable;
  failed it raises at once, its writes still staged; locked throughout, it gives up with nothing staged,
  after one attempt if it cannot replay and might have gone on, else after all it was configured for.
  */
  lemma EndingIs<M>(before: Session<M>, configured: int, replay: Option<seq<M>>, answers: nat -> Answer, k: nat)
    ensures var (after, ending) := Outcome(before, configured, replay, answers);
            var most := Max(1, configured);
            var limit := if replay.Some? then most else 1;
            var written := if k == 0 then before.staged else if replay.Some? then replay.value else [];
            && (AnsweredAt(answers, limit, k, Accepted) ==>
                  ending == Returned && after == Session(before.durable + written, [], before.commits + k + 1))
            && (AnsweredAt(answers, limit, k, Failed) ==>
                  ending == Raised && after == Session(before.durable, written, before.commits + k + 1))
            && ((forall i: nat :: i < limit ==> answers(i) == Locked) ==>
                  && ending == (if replay == None && most > 1 then NotReplayable else Persisted)
                  && after == Session(before.durable, [], before.commits + limit))
  {
    var limit := if replay.Some? then Max(1, configured) else 1;
    var first := FirstUnlocked(answers, 0, limit);
    if AnsweredAt(answers, limit, k, Accepted) || AnsweredAt(answers, limit, k, Failed) {
      assert first == k;
    }
  }
}
