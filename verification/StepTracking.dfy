/**
How a change to a job's JSON step list reaches the database.

The list is loaded as a sequence of mutable dictionaries.  At a flush the session compares the
value now in the attribute with the list object it loaded, dictionary by dictionary, and writes
only if they differ or the attribute was flagged.  A writer that mutates the loaded dictionaries
changes both sides of that comparison.
*/
module StepTracking {
  import opened Wrappers
  import opened ResultCodes
  import opened ActionsModel

  class StepDict {
    var row: StepRow

    constructor (row: StepRow)
      ensures this.row == row
    {
      this.row := row;
    }
  }

  class JobSteps {
    /** What the database holds. */
    var stored: seq<StepRow>
    /** The list object the session loaded, and the one the attribute refers to now. */
    var loaded: seq<StepDict>
    var current: seq<StepDict>
    var flagged: bool

    ghost predicate Shows(dicts: seq<StepDict>, rows: seq<StepRow>)
      reads dicts
    {
      |dicts| == |rows| && forall i :: 0 <= i < |dicts| ==> dicts[i].row == rows[i]
    }

    ghost predicate Distinct(dicts: seq<StepDict>) {
      forall i, j :: 0 <= i < j < |dicts| ==> dicts[i] != dicts[j]
    }

    /** Just loaded: the attribute is the loaded list and shows what is stored. */
    ghost predicate Clean()
      reads this, loaded
    {
      loaded == current && !flagged && Shows(loaded, stored) && Distinct(loaded)
    }

    /** The comparison a flush makes. */
    predicate SeesChange()
      reads this, loaded, current
    {
      |loaded| != |current| || exists i :: 0 <= i < |loaded| && loaded[i].row != current[i].row
    }

    /** Writes exactly when the comparison sees a change or the attribute is flagged. */
    method Flush()
      modifies this
      ensures loaded == current == old(current) && !flagged
      ensures old(SeesChange() || flagged) ==> Shows(current, stored)
      ensures !old(SeesChange() || flagged) ==> stored == old(stored)
    {
      var write := flagged || |loaded| != |current|;
      for i := 0 to |loaded|
        invariant loaded == old(loaded) && current == old(current) && stored == old(stored)
        invariant |loaded| == |current| ==>
                    (write <==> flagged || exists k :: 0 <= k < i && loaded[k].row != current[k].row)
        invariant |loaded| != |current| ==> write
        invariant flagged == old(flagged)
      {
        if !write && loaded[i].row != current[i].row {
          write := true;
        }
      }
      if write {
        var rows: seq<StepRow> := [];
        for i := 0 to |current|
          invariant current == old(current)
          invariant |rows| == i && forall k :: 0 <= k < i ==> rows[k] == current[k].row
        {
          rows := rows + [current[i].row];
        }
        stored := rows;
      }
      loaded, flagged := current, false;
    }

    /** A deep copy: new dictionaries with the same contents. */
    method DeepCopy(dicts: seq<StepDict>) returns (copies: seq<StepDict>)
      ensures |copies| == |dicts| && Distinct(copies)
      ensures forall i :: 0 <= i < |copies| ==> fresh(copies[i]) && copies[i].row == dicts[i].row
    {
      copies := [];
      for i := 0 to |dicts|
        invariant |copies| == i && Distinct(copies)
        invariant forall k :: 0 <= k < i ==> fresh(copies[k]) && copies[k].row == dicts[k].row
      {
        var copy := new StepDict(dicts[i].row);
        copies := copies + [copy];
      }
    }

    /**
    The settlement of a lost job works on a copy, so the loaded dictionaries keep showing what is
    stored and the comparison sees a change exactly when there is one to write.
    */
    method LoseSteps(now: Time) returns (failed: bool)
      requires Clean()
      modifies this`current
      ensures failed == Started(stored)
      ensures Shows(current, if failed then LostSteps(stored, now) else ResetSteps(stored))
      ensures Shows(loaded, stored) && Distinct(current)
      ensures SeesChange() <==> !Shows(current, stored)
    {
      var steps := DeepCopy(current);
      failed := false;
      for i := 0 to |steps|
        invariant failed <==> exists k :: 0 <= k < i && !Untouched(stored[k])
      {
        if steps[i].row.status != None && steps[i].row.status != Some("queued") {
          failed := true;
        }
      }
      if failed {
        for i := 0 to |steps|
          invariant forall k :: 0 <= k < i ==> steps[k].row == LostStep(stored[k], now)
          invariant forall k :: i <= k < |steps| ==> steps[k].row == stored[k]
          modifies steps
        {
          var step := steps[i];
          if step.row.status == Some("in_progress") {
            step.row := step.row.(status := Some("completed"), conclusion := Some("failure"));
            step.row := step.row.(completedAt := Some(now));
            step.row := step.row.(message := Some(LOST_RUNNER_MESSAGE));
          } else if step.row.status == None || step.row.status == Some("queued") {
            step.row := step.row.(status := Some("completed"), conclusion := Some("skipped"));
          }
        }
        current := steps;
      } else {
        current := RebuiltSteps();
      }
    }

    /** The requeue builds each dictionary anew from the old one. */
    method RebuiltSteps() returns (steps: seq<StepDict>)
      requires Clean()
      ensures Shows(steps, ResetSteps(stored)) && Distinct(steps)
      ensures forall i :: 0 <= i < |steps| ==> fresh(steps[i])
    {
      steps := [];
      for i := 0 to |current|
        invariant |steps| == i && Distinct(steps)
        invariant forall k :: 0 <= k < i ==> fresh(steps[k]) && steps[k].row == ResetStep(stored[k])
      {
        var step := new StepDict(current[i].row.(status := Some("queued"), conclusion := None));
        steps := steps + [step];
      }
    }

    /**
    Completing the queued steps mutates the loaded dictionaries, so the comparison sees nothing
    whatever changed.  The attribute is flagged, and that is what makes the flush write.
    */
    method CompleteQueuedSteps(result: ResultCode)
      requires Clean()
      modifies this`current, this`flagged, current
      ensures Shows(current, FinishedSteps(stored, ConclusionOf(result)))
      ensures loaded == current && !SeesChange()
      ensures flagged == (stored != [])
    {
      if |current| == 0 {
        return;
      }
      var conclusion := ConclusionOf(result);
      var steps := current;
      for i := 0 to |steps|
        invariant forall k :: 0 <= k < i ==> steps[k].row == FinishedStep(stored[k], conclusion)
        invariant forall k :: i <= k < |steps| ==> steps[k].row == stored[k]
        modifies steps
      {
        var step := steps[i];
        if step.row.status != Some("completed") {
          step.row := step.row.(status := Some("completed"),
                                conclusion := Some(if conclusion != "cancelled" then conclusion else "skipped"));
        }
      }
      current := steps;
      flagged := true;
    }

    /** Settling a lost job, up to its commit, stores exactly the settled steps. */
    method LoseAndCommit(now: Time) returns (failed: bool)
      requires Clean()
      modifies this
      ensures failed == Started(old(stored))
      ensures stored == if failed then LostSteps(old(stored), now) else ResetSteps(old(stored))
      ensures Clean()
    {
      failed := LoseSteps(now);
      Flush();
    }

    /** Completing the queued steps, up to its commit, stores exactly the completed steps. */
    method CompleteAndCommit(result: ResultCode)
      requires Clean()
      modifies this, current
      ensures stored == FinishedSteps(old(stored), ConclusionOf(result))
      ensures Clean()
    {
      CompleteQueuedSteps(result);
      Flush();
    }
  }
}
