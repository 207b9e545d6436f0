/**
The label routes of an issue: add, replace, remove, and the label part of an issue update.  Each
changes the assignment rows and appends `labeled` and `unlabeled` events to the issue's timeline.
*/
module LabelEvents {
  import opened Wrappers

  datatype Event = Labeled(name: string) | Unlabeled(name: string)

  /** Labels the repository knows, the issue's assignment rows (one per assignment), its timeline. */
  datatype Issue = Issue(known: set<string>, rows: seq<string>, events: seq<Event>)

  datatype Request =
    | Add(names: seq<string>)
    | Replace(names: seq<string>)
    | Remove(name: string)
    | Patch(names: seq<string>)

  /** `ManyRows` is the error of a one-row lookup that finds several. */
  datatype Outcome = Done | NotFound | ManyRows

  function Names(rows: seq<string>): set<string> {
    set r | r in rows
  }

  predicate NoRepeats(names: seq<string>) {
    forall i, j :: 0 <= i < j < |names| ==> names[i] != names[j]
  }

  lemma Append(names: seq<string>, name: string)
    ensures Names(names + [name]) == Names(names) + {name}
    ensures NoRepeats(names + [name]) <==> NoRepeats(names) && name !in names
  {
    var all := names + [name];
    forall r ensures r in Names(all) <==> r in Names(names) + {name} {
      if r == name { assert all[|names|] == name; }
      if r in names { var i :| 0 <= i < |names| && names[i] == r; assert all[i] == r; }
    }
    if NoRepeats(all) {
      forall i | 0 <= i < |names| ensures names[i] != name { assert all[i] != all[|names|]; }
      forall i, j | 0 <= i < j < |names| ensures names[i] != names[j] { assert all[i] != all[j]; }
    }
  }

  // ---------------------------------------------------------------- filters that keep the order

  /** `dict.fromkeys(names)`: the first occurrence of each name. */
  function Distinct(names: seq<string>): (r: seq<string>)
    ensures Names(r) == Names(names)
    ensures NoRepeats(r)
  {
    if names == [] then []
    else
      var before, name := names[..|names| - 1], names[|names| - 1];
      Append(before, name); Append(Distinct(before), name);
      assert names == before + [name];
      assert name in Distinct(before) <==> name in Names(before);
      if name in before then Distinct(before) else Distinct(before) + [name]
  }

  /** The names inside (`keep`) or outside a set, in order, repeats and all. */
  function Select(names: seq<string>, s: set<string>, keep: bool): (r: seq<string>)
    ensures Names(r) == if keep then Names(names) * s else Names(names) - s
    ensures NoRepeats(names) ==> NoRepeats(r)
  {
    if names == [] then []
    else
      var before, name := names[..|names| - 1], names[|names| - 1];
      Append(before, name); Append(Select(before, s, keep), name);
      assert names == before + [name];
      assert name in Select(before, s, keep) ==> name in Names(before);
      if (name in s) == keep then Select(before, s, keep) + [name] else Select(before, s, keep)
  }

  function Count(rows: seq<string>, name: string): nat {
    multiset(rows)[name]
  }

  function AsLabeled(names: seq<string>): (r: seq<Event>)
    ensures |r| == |names|
  {
    seq(|names|, i requires 0 <= i < |names| => Labeled(names[i]))
  }

  function AsUnlabeled(names: seq<string>): (r: seq<Event>)
    ensures |r| == |names|
  {
    seq(|names|, i requires 0 <= i < |names| => Unlabeled(names[i]))
  }

  // ---------------------------------------------------------------- the routes

  /** The names an add or replace body asks for: the non-empty ones, each once. */
  function Wanted(names: seq<string>): seq<string> {
    NonEmpty(Distinct(names))
  }

  function NonEmpty(names: seq<string>): seq<string> {
    Select(names, {""}, false)
  }

  /** The non-empty names that have no row yet. */
  function Fresh(names: seq<string>, rows: seq<string>): seq<string> {
    Select(NonEmpty(names), Names(rows), false)
  }

  predicate AnyRepeated(rows: seq<string>, names: seq<string>) {
    exists name :: name in names && Count(rows, name) > 1
  }

  function DoAdd(issue: Issue, names: seq<string>): (Issue, Outcome) {
    var wanted := Wanted(names);
    if AnyRepeated(issue.rows, wanted) then (issue, ManyRows)
    else
      var added := Fresh(Distinct(names), issue.rows);
      (Issue(issue.known + Names(wanted), issue.rows + added, issue.events + AsLabeled(added)), Done)
  }

  /** What replacing the label rows records: what came in, then what went out. */
  function Changes(oldRows: seq<string>, requested: seq<string>): seq<Event> {
    AsLabeled(Select(requested, Names(oldRows), false))
      + AsUnlabeled(Select(Distinct(oldRows), Names(requested), false))
  }

  function DoReplace(issue: Issue, names: seq<string>): (Issue, Outcome) {
    var wanted := Wanted(names);
    (Issue(issue.known + Names(wanted), wanted, issue.events + Changes(issue.rows, wanted)), Done)
  }

  function DoRemove(issue: Issue, name: string): (Issue, Outcome) {
    if name !in issue.known || Count(issue.rows, name) == 0 then (issue, NotFound)
    else if Count(issue.rows, name) > 1 then (issue, ManyRows)
    else (issue.(rows := Select(issue.rows, {name}, false), events := issue.events + [Unlabeled(name)]), Done)
  }

  /** An issue update ignores names the repository does not know, and adds a row for every mention of the others. */
  function DoPatch(issue: Issue, names: seq<string>): (Issue, Outcome) {
    var rows := Select(names, issue.known, true);
    (issue.(rows := rows, events := issue.events + Changes(issue.rows, Distinct(rows))), Done)
  }

  function Step(issue: Issue, request: Request): (Issue, Outcome) {
    match request
    case Add(names) => DoAdd(issue, names)
    case Replace(names) => DoReplace(issue, names)
    case Remove(name) => DoRemove(issue, name)
    case Patch(names) => DoPatch(issue, names)
  }

  function Run(issue: Issue, requests: seq<Request>): Issue {
    if requests == [] then issue
    else Step(Run(issue, requests[..|requests| - 1]), requests[|requests| - 1]).0
  }

  // ---------------------------------------------------------------- folding the timeline

  /** The label set after the events, or None when one of them changes nothing. */
  function Replay(events: seq<Event>, labels: set<string>): Option<set<string>> {
    if events == [] then Some(labels)
    else
      var before := Replay(events[..|events| - 1], labels);
      if before.None? then None
      else match events[|events| - 1]
        case Labeled(name) => if name in before.value then None else Some(before.value + {name})
        case Unlabeled(name) => if name in before.value then Some(before.value - {name}) else None
  }

  lemma {:induction false} ReplayConcat(a: seq<Event>, b: seq<Event>, labels: set<string>)
    requires Replay(a, labels).Some?
    ensures Replay(a + b, labels) == Replay(b, Replay(a, labels).value)
    decreases |b|
  {
    if b == [] {
      assert a + b == a;
    } else {
      ReplayConcat(a, b[..|b| - 1], labels);
      assert (a + b)[..|a + b| - 1] == a + b[..|b| - 1];
      assert (a + b)[|a + b| - 1] == b[|b| - 1];
    }
  }

  lemma {:induction false} ReplayLabeled(names: seq<string>, labels: set<string>)
    requires NoRepeats(names) && Names(names) !! labels
    ensures Replay(AsLabeled(names), labels) == Some(labels + Names(names))
    decreases |names|
  {
    if names != [] {
      var before, name := names[..|names| - 1], names[|names| - 1];
      assert names == before + [name];
      Append(before, name);
      ReplayLabeled(before, labels);
      assert AsLabeled(names)[..|names| - 1] == AsLabeled(before);
      assert labels + Names(before) + {name} == labels + Names(names);
      assert name in Names(names);
    } else {
      assert labels + Names(names) == labels;
    }
  }

  lemma {:induction false} ReplayUnlabeled(names: seq<string>, labels: set<string>)
    requires NoRepeats(names) && Names(names) <= labels
    ensures Replay(AsUnlabeled(names), labels) == Some(labels - Names(names))
    decreases |names|
  {
    if names != [] {
      var before, name := names[..|names| - 1], names[|names| - 1];
      assert names == before + [name];
      Append(before, name);
      ReplayUnlabeled(before, labels);
      assert AsUnlabeled(names)[..|names| - 1] == AsUnlabeled(before);
      assert labels - Names(before) - {name} == labels - Names(names);
      assert name in Names(names);
    } else {
      assert labels - Names(names) == labels;
    }
  }

  lemma ChangesReplay(oldRows: seq<string>, requested: seq<string>)
    requires NoRepeats(requested)
    ensures Replay(Changes(oldRows, requested), Names(oldRows)) == Some(Names(requested))
  {
    var came := Select(requested, Names(oldRows), false);
    var went := Select(Distinct(oldRows), Names(requested), false);
    ReplayLabeled(came, Names(oldRows));
    ReplayUnlabeled(went, Names(oldRows) + Names(came));
    ReplayConcat(AsLabeled(came), AsUnlabeled(went), Names(oldRows));
    assert Names(oldRows) + Names(came) - Names(went) == Names(requested);
  }

  /** One request only appends to the timeline, and what it appends leads from the old label set to the new. */
  predicate Recorded(before: Issue, after: Issue) {
    && |before.events| <= |after.events|
    && after.events[..|before.events|] == before.events
    && Replay(after.events[|before.events|..], Names(before.rows)) == Some(Names(after.rows))
  }

  lemma RecordedBy(before: Issue, after: Issue, appended: seq<Event>)
    requires after.events == before.events + appended
    requires Replay(appended, Names(before.rows)) == Some(Names(after.rows))
    ensures Recorded(before, after)
  {
    assert after.events[|before.events|..] == appended;
  }

  lemma RowsConcat(a: seq<string>, b: seq<string>)
    ensures Names(a + b) == Names(a) + Names(b)
  {
  }

  lemma AddRecords(issue: Issue, names: seq<string>)
    ensures Recorded(issue, DoAdd(issue, names).0)
  {
    var (after, outcome) := DoAdd(issue, names);
    if outcome.Done? {
      var added := Fresh(Distinct(names), issue.rows);
      ReplayLabeled(added, Names(issue.rows));
      RowsConcat(issue.rows, added);
      RecordedBy(issue, after, AsLabeled(added));
    } else {
      RecordedBy(issue, after, []);
    }
  }

  lemma RemoveRecords(issue: Issue, name: string)
    ensures Recorded(issue, DoRemove(issue, name).0)
  {
    var (after, outcome) := DoRemove(issue, name);
    if outcome.Done? {
      assert name in Names(issue.rows);
      ReplayUnlabeled([name], Names(issue.rows));
      assert AsUnlabeled([name]) == [Unlabeled(name)];
      assert Names([name]) == {name} by { assert [name][0] == name; }
      RecordedBy(issue, after, [Unlabeled(name)]);
    } else {
      RecordedBy(issue, after, []);
    }
  }

  lemma StepRecords(issue: Issue, request: Request)
    ensures Recorded(issue, Step(issue, request).0)
  {
    match request
    case Add(names) => AddRecords(issue, names);
    case Remove(name) => RemoveRecords(issue, name);
    case Replace(names) =>
      ChangesReplay(issue.rows, Wanted(names));
      RecordedBy(issue, DoReplace(issue, names).0, Changes(issue.rows, Wanted(names)));
    case Patch(names) =>
      var rows := Select(names, issue.known, true);
      ChangesReplay(issue.rows, Distinct(rows));
      RecordedBy(issue, DoPatch(issue, names).0, Changes(issue.rows, Distinct(rows)));
  }

  /**
  Over any run of label requests, folding the events recorded since the start over the initial label
  set gives the current label set, and every event changes the set it is applied to.
  */
  lemma {:induction false} TimelineEqualsState(issue: Issue, requests: seq<Request>)
    ensures Recorded(issue, Run(issue, requests))
    decreases |requests|
  {
    if requests == [] {
      RecordedBy(issue, issue, []);
    } else {
      var middle := Run(issue, requests[..|requests| - 1]);
      TimelineEqualsState(issue, requests[..|requests| - 1]);
      StepRecords(middle, requests[|requests| - 1]);
      RecordedTrans(issue, middle, Run(issue, requests));
    }
  }

  lemma RecordedTrans(a: Issue, b: Issue, c: Issue)
    requires Recorded(a, b) && Recorded(b, c)
    ensures Recorded(a, c)
  {
    var first, second := b.events[|a.events|..], c.events[|b.events|..];
    assert c.events == a.events + (first + second);
    ReplayConcat(first, second, Names(a.rows));
    RecordedBy(a, c, first + second);
  }

  /** A single request never records a change and its opposite, nor the same change twice. */
  lemma StepRecordsTheDifference(issue: Issue, request: Request)
    ensures var after := Step(issue, request).0;
            var appended := after.events[|issue.events|..];
            && |issue.events| <= |after.events|
            && (forall name :: Labeled(name) in appended <==> name in after.rows && name !in issue.rows)
            && (forall name :: Unlabeled(name) in appended <==> name in issue.rows && name !in after.rows)
  {
    StepRecords(issue, request);
    var after := Step(issue, request).0;
    var appended := after.events[|issue.events|..];
    assert forall name :: name in after.rows <==> name in Names(after.rows);
    assert forall name :: name in issue.rows <==> name in Names(issue.rows);
    match request
    case Add(names) => DifferenceOfAdd(issue, names);
    case Remove(name) => DifferenceOfRemove(issue, name);
    case Replace(names) =>
      DifferenceOfChanges(issue.rows, Wanted(names));
      assert appended == Changes(issue.rows, Wanted(names));
    case Patch(names) =>
      var rows := Select(names, issue.known, true);
      DifferenceOfChanges(issue.rows, Distinct(rows));
      assert appended == Changes(issue.rows, Distinct(rows));
  }

  lemma EventsOf(came: seq<string>, went: seq<string>)
    ensures forall name :: Labeled(name) in AsLabeled(came) + AsUnlabeled(went) <==> name in came
    ensures forall name :: Unlabeled(name) in AsLabeled(came) + AsUnlabeled(went) <==> name in went
  {
    var all := AsLabeled(came) + AsUnlabeled(went);
    forall name ensures (Labeled(name) in all <==> name in came) && (Unlabeled(name) in all <==> name in went) {
      if name in came { var i :| 0 <= i < |came| && came[i] == name; assert all[i] == Labeled(name); }
      if name in went { var i :| 0 <= i < |went| && went[i] == name; assert all[|came| + i] == Unlabeled(name); }
    }
  }

  lemma DifferenceOfChanges(oldRows: seq<string>, requested: seq<string>)
    ensures forall name :: Labeled(name) in Changes(oldRows, requested) <==> name in Names(requested) - Names(oldRows)
    ensures forall name :: Unlabeled(name) in Changes(oldRows, requested) <==> name in Names(oldRows) - Names(requested)
  {
    var came := Select(requested, Names(oldRows), false);
    var went := Select(Distinct(oldRows), Names(requested), false);
    EventsOf(came, went);
    assert forall name :: name in came <==> name in Names(came);
    assert forall name :: name in went <==> name in Names(went);
  }

  lemma DifferenceOfAdd(issue: Issue, names: seq<string>)
    ensures var after := DoAdd(issue, names).0;
            && |issue.events| <= |after.events|
            && (forall name :: Labeled(name) in after.events[|issue.events|..] <==>
                 name in Names(after.rows) - Names(issue.rows))
            && (forall name :: Unlabeled(name) in after.events[|issue.events|..] <==>
                 name in Names(issue.rows) - Names(after.rows))
  {
    var (after, outcome) := DoAdd(issue, names);
    if outcome.Done? {
      var added := Fresh(Distinct(names), issue.rows);
      RowsConcat(issue.rows, added);
      EventsOf(added, []);
      assert after.events[|issue.events|..] == AsLabeled(added) + AsUnlabeled([]);
      assert forall name :: name in added <==> name in Names(added);
    }
  }

  lemma DifferenceOfRemove(issue: Issue, name: string)
    ensures var after := DoRemove(issue, name).0;
            && |issue.events| <= |after.events|
            && (forall n :: Labeled(n) in after.events[|issue.events|..] <==>
                 n in Names(after.rows) - Names(issue.rows))
            && (forall n :: Unlabeled(n) in after.events[|issue.events|..] <==>
                 n in Names(issue.rows) - Names(after.rows))
  {
    var (after, outcome) := DoRemove(issue, name);
    if outcome.Done? {
      assert after.events[|issue.events|..] == [Unlabeled(name)];
      assert name in Names(issue.rows);
    }
  }

  /** What each request does to the label set, and when it is refused; a refused request changes nothing. */
  lemma LabelSetAfter(issue: Issue, request: Request)
    ensures var (after, outcome) := Step(issue, request);
            && (outcome != Done ==> after == issue)
            && (outcome == Done ==>
                  Names(after.rows) == match request
                    case Add(names) => Names(issue.rows) + (Names(names) - {""})
                    case Replace(names) => Names(names) - {""}
                    case Remove(name) => Names(issue.rows) - {name}
                    case Patch(names) => Names(names) * issue.known)
            && (outcome == Done && (request.Add? || request.Replace?) ==>
                 after.known == issue.known + (Names(request.names) - {""}))
            && (request.Remove? ==> (outcome == NotFound <==>
                 request.name !in issue.known || request.name !in issue.rows))
  {
    match request
    case Add(names) => RowsConcat(issue.rows, Fresh(Distinct(names), issue.rows));
    case _ =>
  }

  // ---------------------------------------------------------------- rows and answers

  lemma {:induction false} SelectCount(names: seq<string>, s: set<string>, keep: bool, name: string)
    ensures Count(Select(names, s, keep), name) == if (name in s) == keep then Count(names, name) else 0
    decreases |names|
  {
    if names != [] {
      var before, last := names[..|names| - 1], names[|names| - 1];
      SelectCount(before, s, keep, name);
      assert names == before + [last];
    }
  }

  lemma DistinctCount(names: seq<string>, name: string)
    ensures Count(Distinct(names), name) == if name in names then 1 else 0
  {
    assert name in Distinct(names) <==> name in Names(Distinct(names));
    assert name in names <==> name in Names(names);
    SingleCount(Distinct(names), name);
    assert name in Distinct(names) <==> name in multiset(Distinct(names));
  }

  /** How many rows a label has after a request that is done. */
  lemma RowsAfter(issue: Issue, request: Request, name: string)
    requires Step(issue, request).1 == Done
    ensures Count(Step(issue, request).0.rows, name) == match request
              case Add(names) =>
                if name in names && name != "" && name !in issue.rows then 1 else Count(issue.rows, name)
              case Replace(names) => if name in names && name != "" then 1 else 0
              case Remove(removed) => if name == removed then 0 else Count(issue.rows, name)
              case Patch(names) => if name in issue.known then Count(names, name) else 0
  {
    match request
    case Add(names) =>
      DistinctCount(names, name);
      SelectCount(Distinct(names), {""}, false, name);
      SelectCount(NonEmpty(Distinct(names)), Names(issue.rows), false, name);
      var added := Fresh(Distinct(names), issue.rows);
      assert multiset(issue.rows + added) == multiset(issue.rows) + multiset(added);
      assert name in issue.rows <==> name in Names(issue.rows);
      assert name in issue.rows <==> name in multiset(issue.rows);
    case Replace(names) =>
      DistinctCount(names, name);
      SelectCount(Distinct(names), {""}, false, name);
    case Remove(removed) => SelectCount(issue.rows, {removed}, false, name);
    case Patch(names) => SelectCount(names, issue.known, true, name);
  }

  /**
  What a request answers: a removal of a label that is unknown or not on the issue is not found; a label
  with several rows makes adding and removing it fail; every other request is done.
  */
  lemma AnswerIs(issue: Issue, request: Request)
    ensures var answer := Step(issue, request).1;
            && (answer == NotFound <==>
                  request.Remove? && (request.name !in issue.known || request.name !in issue.rows))
            && (answer == ManyRows <==>
                  || (request.Remove? && request.name in issue.known && Count(issue.rows, request.name) > 1)
                  || (request.Add? && exists n :: n in request.names && n != "" && Count(issue.rows, n) > 1))
  {
    if request.Add? {
      forall n ensures n in Wanted(request.names) <==> n in request.names && n != "" {
        assert n in Wanted(request.names) <==> n in Names(Wanted(request.names));
        assert n in request.names <==> n in Names(request.names);
      }
    }
    if request.Remove? {
      assert request.name in issue.rows <==> request.name in multiset(issue.rows);
    }
  }

  /** The repository comes to know the labels an add or a replacement names, and knows all it knew. */
  lemma KnownAfter(issue: Issue, request: Request, name: string)
    ensures name in Step(issue, request).0.known <==>
              || name in issue.known
              || (Step(issue, request).1 == Done && (request.Add? || request.Replace?) && name in request.names
                  && name != "")
  {
    if request.Add? || request.Replace? {
      assert name in request.names <==> name in Names(request.names);
    }
  }

  // ---------------------------------------------------------------- one row per label

  /** A patch body that mentions a known label more than once. */
  predicate RepeatsKnown(names: seq<string>, known: set<string>) {
    exists i, j :: 0 <= i < j < |names| && names[i] == names[j] && names[i] in known
  }

  /** Selecting known names yields a repeat exactly when a known name is mentioned twice. */
  lemma {:induction false} SelectRepeatsIff(names: seq<string>, known: set<string>)
    ensures NoRepeats(Select(names, known, true)) <==> !RepeatsKnown(names, known)
    decreases |names|
  {
    if names != [] {
      var before, name := names[..|names| - 1], names[|names| - 1];
      SelectRepeatsIff(before, known);
      Append(Select(before, known, true), name);
      assert name in Select(before, known, true) <==> name in Names(before) * known;
      if RepeatsKnown(before, known) {
        var i, j :| 0 <= i < j < |before| && before[i] == before[j] && before[i] in known;
        assert names[i] == names[j];
      } else if name in known && name in before {
        var i :| 0 <= i < |before| && before[i] == name;
        assert names[i] == names[|names| - 1];
      }
    }
  }

  lemma SingleCount(rows: seq<string>, name: string)
    requires NoRepeats(rows)
    ensures Count(rows, name) <= 1
    decreases |rows|
  {
    if rows != [] {
      var before, last := rows[..|rows| - 1], rows[|rows| - 1];
      assert rows == before + [last];
      Append(before, last);
      SingleCount(before, name);
      if name == last {
        assert name !in multiset(before);
      }
    }
  }

  lemma RepeatFreeConcat(a: seq<string>, b: seq<string>)
    requires NoRepeats(a) && NoRepeats(b) && Names(a) !! Names(b)
    ensures NoRepeats(a + b)
  {
    forall i, j | 0 <= i < |a| && 0 <= j < |b| ensures a[i] != b[j] {
      assert a[i] in Names(a) && b[j] in Names(b);
    }
  }

  /** An issue with one row per label keeps it that way, unless an update repeats a known label. */
  lemma OneRowPerLabelKeptIff(issue: Issue, request: Request)
    requires NoRepeats(issue.rows)
    ensures Step(issue, request).1 != ManyRows
    ensures NoRepeats(Step(issue, request).0.rows) <==> !(request.Patch? && RepeatsKnown(request.names, issue.known))
  {
    forall name ensures Count(issue.rows, name) <= 1 { SingleCount(issue.rows, name); }
    match request
    case Add(names) => RepeatFreeConcat(issue.rows, Fresh(Distinct(names), issue.rows));
    case Patch(names) => SelectRepeatsIff(names, issue.known);
    case Replace(_) =>
    case Remove(_) =>
  }

  /** With two rows for a label, adding that label or removing it fails and changes nothing. */
  lemma RepeatedRowBlocksItsLabel(issue: Issue, name: string)
    requires Count(issue.rows, name) > 1 && name != "" && name in issue.known
    ensures DoAdd(issue, [name]) == (issue, ManyRows) && DoRemove(issue, name) == (issue, ManyRows)
  {
    assert [name][0] == name;
    assert name in Names(Wanted([name]));
  }

  // ---------------------------------------------------------------- the routes as they run

  lemma OneMore(names: seq<string>, i: nat)
    requires i < |names|
    ensures names[..i + 1] == names[..i] + [names[i]] && names[..i + 1][..i] == names[..i]
  {
  }

  /** The tables a label route works on; a route that raises before its commit leaves them as they were. */
  class IssueStore {
    var known: set<string>
    var rows: seq<string>
    var events: seq<Event>

    ghost function State(): Issue
      reads this
    {
      Issue(known, rows, events)
    }

    method AddIssueLabels(names: seq<string>) returns (outcome: Outcome)
      modifies this
      ensures (State(), outcome) == Step(old(State()), Add(names))
    {
      var created, added, repeated := StageLabels(names);
      if repeated { return ManyRows; }
      known := known + created;
      rows := rows + added;
      events := events + AsLabeled(added);
      outcome := Done;
    }

    /** The loop over the wanted names, on the session's own staged rows: it stops at a label that has several. */
    method StageLabels(names: seq<string>) returns (created: set<string>, added: seq<string>, repeated: bool)
      ensures repeated <==> AnyRepeated(rows, Wanted(names))
      ensures !repeated ==> created == Names(Wanted(names)) && added == Fresh(Distinct(names), rows)
    {
      var wanted := Distinct(names);
      created, added, repeated := {}, [], false;
      for i := 0 to |wanted|
        invariant added == Fresh(wanted[..i], rows)
        invariant created == Names(NonEmpty(wanted[..i]))
        invariant !AnyRepeated(rows, NonEmpty(wanted[..i]))
      {
        AddStep(rows, wanted, i);
        RepeatStep(rows, wanted, i);
        var name := wanted[i];
        if name != "" {
          created := created + {name};
          var existing := Count(rows + added, name);
          if existing > 1 {
            RepeatIsFound(rows, names, i);
            return created, added, true;
          }
          if existing == 0 {
            added := added + [name];
          }
        }
      }
      assert wanted[..|wanted|] == wanted;
    }

    method SetIssueLabels(names: seq<string>) returns (outcome: Outcome)
      modifies this
      ensures (State(), outcome) == Step(old(State()), Replace(names))
    {
      var wanted := Distinct(names);
      var created, replaced := {}, [];
      for i := 0 to |wanted|
        invariant State() == old(State())
        invariant replaced == NonEmpty(wanted[..i])
        invariant created == Names(replaced)
      {
        OneMore(wanted, i);
        Append(replaced, wanted[i]);
        if wanted[i] != "" {
          created := created + {wanted[i]};
          replaced := replaced + [wanted[i]];
        }
      }
      assert wanted[..|wanted|] == wanted;
      known := known + created;
      RecordChanges(rows, replaced);
      rows := replaced;
      outcome := Done;
    }

    method RemoveIssueLabel(name: string) returns (outcome: Outcome)
      modifies this
      ensures (State(), outcome) == Step(old(State()), Remove(name))
    {
      if name !in known || Count(rows, name) == 0 { return NotFound; }
      if Count(rows, name) > 1 { return ManyRows; }
      var kept := [];
      for i := 0 to |rows|
        invariant State() == old(State())
        invariant kept == Select(rows[..i], {name}, false)
      {
        OneMore(rows, i);
        if rows[i] != name {
          kept := kept + [rows[i]];
        }
      }
      assert rows[..|rows|] == rows;
      rows := kept;
      events := events + [Unlabeled(name)];
      outcome := Done;
    }

    method UpdateIssueLabels(names: seq<string>) returns (outcome: Outcome)
      modifies this
      ensures (State(), outcome) == Step(old(State()), Patch(names))
    {
      var replaced := [];
      for i := 0 to |names|
        invariant State() == old(State())
        invariant replaced == Select(names[..i], known, true)
      {
        OneMore(names, i);
        if names[i] in known {
          replaced := replaced + [names[i]];
        }
      }
      assert names[..|names|] == names;
      RecordChanges(rows, Distinct(replaced));
      rows := replaced;
      outcome := Done;
    }

    /** The two event loops that a replacement runs over its requested and its old labels. */
    method RecordChanges(oldRows: seq<string>, requested: seq<string>)
      modifies this`events
      ensures events == old(events) + Changes(oldRows, requested)
    {
      RecordCame(requested, Names(oldRows));
      RecordWent(Distinct(oldRows), Names(requested));
    }

    method RecordCame(requested: seq<string>, oldLabels: set<string>)
      modifies this`events
      ensures events == old(events) + AsLabeled(Select(requested, oldLabels, false))
    {
      for i := 0 to |requested|
        invariant events == old(events) + AsLabeled(Select(requested[..i], oldLabels, false))
      {
        OneMore(requested, i);
        SelectOneMore(requested[..i], requested[i], oldLabels);
        LabeledOneMore(Select(requested[..i], oldLabels, false), requested[i]);
        if requested[i] !in oldLabels {
          events := events + [Labeled(requested[i])];
        }
      }
      assert requested[..|requested|] == requested;
    }

    method RecordWent(oldLabels: seq<string>, requested: set<string>)
      modifies this`events
      ensures events == old(events) + AsUnlabeled(Select(oldLabels, requested, false))
    {
      for i := 0 to |oldLabels|
        invariant events == old(events) + AsUnlabeled(Select(oldLabels[..i], requested, false))
      {
        OneMore(oldLabels, i);
        SelectOneMore(oldLabels[..i], oldLabels[i], requested);
        UnlabeledOneMore(Select(oldLabels[..i], requested, false), oldLabels[i]);
        if oldLabels[i] !in requested {
          events := events + [Unlabeled(oldLabels[i])];
        }
      }
      assert oldLabels[..|oldLabels|] == oldLabels;
    }
  }

  lemma LabeledOneMore(names: seq<string>, name: string)
    ensures AsLabeled(names + [name]) == AsLabeled(names) + [Labeled(name)]
  {
  }

  lemma UnlabeledOneMore(names: seq<string>, name: string)
    ensures AsUnlabeled(names + [name]) == AsUnlabeled(names) + [Unlabeled(name)]
  {
  }

  lemma SelectOneMore(names: seq<string>, name: string, s: set<string>)
    ensures Select(names + [name], s, false)
         == if name in s then Select(names, s, false) else Select(names, s, false) + [name]
  {
    assert (names + [name])[..|names|] == names;
  }

  /** A name met for the first time is not among the rows this call has added. */
  lemma AddStep(rows: seq<string>, wanted: seq<string>, i: nat)
    requires NoRepeats(wanted) && i < |wanted|
    ensures var before, after, name := wanted[..i], wanted[..i + 1], wanted[i];
            && NonEmpty(after) == (if name == "" then NonEmpty(before) else NonEmpty(before) + [name])
            && Names(NonEmpty(after)) == (if name == "" then Names(NonEmpty(before))
                 else Names(NonEmpty(before)) + {name})
            && Fresh(after, rows) == (if name == "" || Count(rows, name) > 0 then Fresh(before, rows)
                 else Fresh(before, rows) + [name])
            && Count(rows + Fresh(before, rows), name) == Count(rows, name)
  {
    var before, name := wanted[..i], wanted[i];
    OneMore(wanted, i);
    SelectOneMore(before, name, {""});
    SelectOneMore(NonEmpty(before), name, Names(rows));
    Append(NonEmpty(before), name);
    assert name in rows <==> name in Names(rows);
    var added := Fresh(before, rows);
    assert name !in Names(before);
    assert name !in Names(added);
    assert name !in multiset(added);
    assert multiset(rows + added) == multiset(rows) + multiset(added);
  }

  lemma RepeatStep(rows: seq<string>, wanted: seq<string>, i: nat)
    requires i < |wanted|
    ensures AnyRepeated(rows, NonEmpty(wanted[..i + 1]))
       <==> AnyRepeated(rows, NonEmpty(wanted[..i])) || (wanted[i] != "" && Count(rows, wanted[i]) > 1)
  {
    OneMore(wanted, i);
    SelectOneMore(wanted[..i], wanted[i], {""});
  }

  lemma RepeatIsFound(rows: seq<string>, names: seq<string>, i: nat)
    requires i < |Distinct(names)| && Distinct(names)[i] != "" && Count(rows, Distinct(names)[i]) > 1
    ensures AnyRepeated(rows, Wanted(names))
  {
    var name := Distinct(names)[i];
    assert name in Names(Distinct(names));
    assert name in Names(Wanted(names));
  }
}
