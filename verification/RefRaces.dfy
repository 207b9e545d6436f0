/**
Concurrent writers of branch refs.  Each `commit_files` and non-forced `update_ref` call is a small
program whose steps - read the tip, check or build, compare and swap - interleave with the steps of
every other call.  A `World` is the repository and the calls in flight; `Advance` runs one step of
one call.
*/
module RefRaces {
  import opened Wrappers
  import opened CommitGraph

  type CallId = nat
  type Branch = string

  /** What an update is asked to move the branch to: a commit, or the name of a ref, looked up each time it is used. */
  datatype Target = Object(sha: Sha) | Ref(name: Branch)

  datatype Failure = StaleBranch | MissingPath(path: Path) | NotFastForward | RefusedByGit

  /** What one `commit_files` call was asked to do. */
  datatype Change = Change(
    expected: Sha,
    additions: seq<(Path, Blob)>,
    deletions: seq<Path>,
    message: string,
    author: string,
    stamp: int)

  datatype Call =
    | CommitStart(branch: Branch, change: Change)
    | CommitHeadSeen(branch: Branch, change: Change)
    | CommitBuilt(branch: Branch, change: Change, commit: Sha)
    | UpdateStart(branch: Branch, target: Target)
    | UpdateTipRead(branch: Branch, target: Target, tip: Sha)
    | UpdateChecked(branch: Branch, target: Target, tip: Sha, seen: Sha)
    | UpdateUnguarded(branch: Branch, target: Target)
    | Succeeded(branch: Branch, commit: Sha)
    | Failed(branch: Branch, failure: Failure)

  /** A successful ref write; `built` tells a `commit_files` call from an `update_ref` call. */
  datatype Move = Move(branch: Branch, before: Option<Sha>, after: Sha, built: bool)

  datatype World = World(graph: Graph, refs: map<Branch, Sha>, calls: map<CallId, Call>, moves: seq<Move>)

  function NewCommit(g: Graph, change: Change): Commit
    requires change.expected < |g|
  {
    Commit(Overlay(g[change.expected].tree, change.deletions, change.additions), [change.expected],
           change.message, change.author, change.stamp)
  }

  // ---------------------------------------------------------------- the steps

  predicate Inv(w: World) {
    && WellFormed(w.graph)
    && (forall b :: b in w.refs ==> w.refs[b] < |w.graph|)
    && (forall c :: c in w.calls ==> CallOk(w.graph, w.calls[c]))
  }

  /** What a call already established before its next step. */
  predicate CallOk(g: Graph, call: Call)
    requires WellFormed(g)
  {
    match call
    case CommitHeadSeen(_, change) => change.expected < |g|
    case CommitBuilt(_, change, commit) =>
      change.expected < |g| && commit < |g| && g[commit] == NewCommit(g, change)
    case UpdateTipRead(_, _, tip) => tip < |g|
    case UpdateChecked(_, target, tip, seen) =>
      tip < |g| && seen < |g| && IsAncestor(g, tip, seen) && (target.Object? ==> target.sha == seen)
    case _ => true
  }

  function Resolved(w: World, target: Target): Option<Sha> {
    match target
    case Object(sha) => if sha < |w.graph| then Some(sha) else None
    case Ref(name) => if name in w.refs then Some(w.refs[name]) else None
  }

  /** `git update-ref <ref> <new> <old>`: one atomic compare and swap. */
  function Swap(w: World, c: CallId, branch: Branch, target: Sha, expected: Sha, built: bool): World {
    if branch in w.refs && w.refs[branch] == expected then
      w.(refs := w.refs[branch := target],
         moves := w.moves + [Move(branch, Some(expected), target, built)],
         calls := w.calls[c := Succeeded(branch, target)])
    else
      w.(calls := w.calls[c := Failed(branch, StaleBranch)])
  }

  function Build(w: World, c: CallId, branch: Branch, change: Change): World
    requires Inv(w) && change.expected < |w.graph|
  {
    var missing := FirstMissing(w.graph[change.expected].tree, change.deletions);
    if missing.Some? then w.(calls := w.calls[c := Failed(branch, MissingPath(missing.value))])
    else
      var (graph, commit) := Store(w.graph, NewCommit(w.graph, change));
      w.(graph := graph, calls := w.calls[c := CommitBuilt(branch, change, commit)])
  }

  function Advance(w: World, c: CallId): World
    requires Inv(w) && c in w.calls
  {
    match w.calls[c]
    case CommitStart(branch, change) =>
      if branch in w.refs && w.refs[branch] == change.expected
      then w.(calls := w.calls[c := CommitHeadSeen(branch, change)])
      else w.(calls := w.calls[c := Failed(branch, StaleBranch)])
    case CommitHeadSeen(branch, change) => Build(w, c, branch, change)
    case CommitBuilt(branch, change, commit) => Swap(w, c, branch, commit, change.expected, true)
    case UpdateStart(branch, target) =>
      if branch in w.refs
      then w.(calls := w.calls[c := UpdateTipRead(branch, target, w.refs[branch])])
      else w.(calls := w.calls[c := UpdateUnguarded(branch, target)])
    case UpdateTipRead(branch, target, tip) =>
      var seen := Resolved(w, target);
      if seen.Some? && IsAncestor(w.graph, tip, seen.value)
      then w.(calls := w.calls[c := UpdateChecked(branch, target, tip, seen.value)])
      else w.(calls := w.calls[c := Failed(branch, NotFastForward)])
    case UpdateChecked(branch, target, tip, _) =>
      var commit := Resolved(w, target);
      if commit.Some? then Swap(w, c, branch, commit.value, tip, false)
      else w.(calls := w.calls[c := Failed(branch, RefusedByGit)])
    case UpdateUnguarded(branch, target) =>
      var commit := Resolved(w, target);
      if commit.Some? then
        w.(refs := w.refs[branch := commit.value],
           moves := w.moves + [Move(branch, if branch in w.refs then Some(w.refs[branch]) else None,
             commit.value, false)],
           calls := w.calls[c := Succeeded(branch, commit.value)])
      else w.(calls := w.calls[c := Failed(branch, RefusedByGit)])
    case _ => w
  }

  /** A new request arrives, some call takes its next step, or an object is pushed without moving a ref. */
  datatype Event = Arrive(c: CallId, call: Call) | Tick(c: CallId) | Push(commit: Commit)

  function Step(w: World, e: Event): World
    requires Inv(w)
  {
    match e
    case Arrive(c, call) =>
      if c !in w.calls && (call.CommitStart? || call.UpdateStart?) then w.(calls := w.calls[c := call]) else w
    case Tick(c) => if c in w.calls then Advance(w, c) else w
    case Push(commit) => if KnownParents(w.graph, commit) then w.(graph := Store(w.graph, commit).0) else w
  }

  // ---------------------------------------------------------------- the invariant

  lemma CallOkStable(g: Graph, h: Graph, call: Call)
    requires WellFormed(g) && WellFormed(h) && Extends(g, h) && CallOk(g, call)
    ensures CallOk(h, call)
  {
    match call
    case CommitBuilt(_, change, commit) =>
      assert h[commit] == h[..|g|][commit] && h[change.expected] == h[..|g|][change.expected];
    case UpdateChecked(_, _, tip, seen) => AncestorStable(g, h, tip, seen);
    case _ =>
  }

  lemma BuildKeepsInv(w: World, c: CallId, branch: Branch, change: Change)
    requires Inv(w) && change.expected < |w.graph|
    ensures Inv(Build(w, c, branch, change)) && Extends(w.graph, Build(w, c, branch, change).graph)
  {
    var t := Build(w, c, branch, change);
    if FirstMissing(w.graph[change.expected].tree, change.deletions) == None {
      assert t.graph[change.expected] == t.graph[..|w.graph|][change.expected];
    }
    forall d | d in t.calls ensures CallOk(t.graph, t.calls[d]) {
      if d != c { CallOkStable(w.graph, t.graph, w.calls[d]); }
    }
  }

  lemma TickKeepsInv(w: World, c: CallId)
    requires Inv(w) && c in w.calls && !w.calls[c].CommitHeadSeen?
    ensures Inv(Advance(w, c)) && Advance(w, c).graph == w.graph
  {
    assert CallOk(w.graph, w.calls[c]);
  }

  lemma PushKeepsInv(w: World, commit: Commit)
    requires Inv(w)
    ensures Inv(Step(w, Push(commit))) && Extends(w.graph, Step(w, Push(commit)).graph)
  {
    var t := Step(w, Push(commit));
    forall d | d in t.calls ensures CallOk(t.graph, t.calls[d]) {
      CallOkStable(w.graph, t.graph, w.calls[d]);
    }
  }

  lemma StepKeepsInv(w: World, e: Event)
    requires Inv(w)
    ensures Inv(Step(w, e)) && Extends(w.graph, Step(w, e).graph)
  {
    match e
    case Tick(c) =>
      if c in w.calls && w.calls[c].CommitHeadSeen? {
        BuildKeepsInv(w, c, w.calls[c].branch, w.calls[c].change);
      } else if c in w.calls {
        TickKeepsInv(w, c);
      }
    case Push(commit) => PushKeepsInv(w, commit);
    case Arrive(c, call) =>
  }

  // ---------------------------------------------------------------- one step and one branch

  /**
  The step writes the branch with a commit that does not descend from its tip.  An update whose tip is
  as it read it can do that when its target named another commit at the check; one that found no
  branch to read can do it to a branch made since.
  */
  predicate Rewinds(w: World, e: Event, b: Branch)
    requires Inv(w) && b in w.refs
  {
    && e.Tick? && e.c in w.calls
    && match w.calls[e.c]
       case UpdateChecked(branch, target, tip, _) => branch == b && w.refs[b] == tip && NamesNoDescendant(w, target, b)
       case UpdateUnguarded(branch, target) => branch == b && NamesNoDescendant(w, target, b)
       case _ => false
  }

  predicate NamesNoDescendant(w: World, target: Target, b: Branch)
    requires Inv(w) && b in w.refs
  {
    Resolved(w, target).Some? && !IsAncestor(w.graph, w.refs[b], Resolved(w, target).value)
  }

  lemma CommitDescends(w: World, c: CallId)
    requires Inv(w) && c in w.calls && w.calls[c].CommitBuilt?
    ensures IsAncestor(w.graph, w.calls[c].change.expected, w.calls[c].commit)
  {
    var call := w.calls[c];
    assert w.graph[call.commit].parents[0] == call.change.expected;
    assert IsAncestor(w.graph, call.change.expected, w.graph[call.commit].parents[0]);
  }

  lemma QuietStep(w: World, e: Event, b: Branch)
    requires Inv(w) && b in w.refs && !(e.Tick? && e.c in w.calls && Writes(w.calls[e.c]))
    ensures var t := Step(w, e); t.refs == w.refs && t.moves == w.moves
  {
  }

  predicate Writes(call: Call) {
    call.CommitBuilt? || call.UpdateChecked? || call.UpdateUnguarded?
  }

  lemma WritingStep(w: World, c: CallId)
    requires Inv(w) && c in w.calls && Writes(w.calls[c])
    ensures Step(w, Tick(c)).graph == w.graph
  {
  }

  /** A step leaves an existing branch where it was or moves it forward exactly when it is not a rewinding one. */
  lemma StepKeepsHistoryIff(w: World, e: Event, b: Branch)
    requires Inv(w) && b in w.refs
    ensures var t := Step(w, e);
            && Inv(t) && Extends(w.graph, t.graph) && b in t.refs
            && (IsAncestor(t.graph, w.refs[b], t.refs[b]) <==> !Rewinds(w, e, b))
  {
    StepKeepsInv(w, e);
    if e.Tick? && e.c in w.calls && Writes(w.calls[e.c]) {
      WritingStep(w, e.c);
      if w.calls[e.c].CommitBuilt? {
        CommitDescends(w, e.c);
      }
    } else {
      QuietStep(w, e, b);
    }
  }

  /** The log entry of a step from w to t, seen from branch b: it names the tip it replaced. */
  predicate LogsMove(w: World, t: World, b: Branch, m: Move)
    requires b in w.refs && b in t.refs
  {
    && t.moves == w.moves + [m]
    && (m.branch != b ==> t.refs[b] == w.refs[b])
    && (m.branch == b ==> m.before == Some(w.refs[b]) && m.after == t.refs[b])
    && (m.branch == b && m.built ==> m.after < |t.graph| && t.graph[m.after].parents == [w.refs[b]])
  }

  /** The last entry of a log that grew. */
  function NewMove(w: World, t: World): Move
    requires |t.moves| > |w.moves|
  {
    t.moves[|w.moves|]
  }

  lemma WriteIsLogged(w: World, c: CallId, b: Branch)
    requires Inv(w) && b in w.refs && c in w.calls && Writes(w.calls[c])
    ensures var t := Step(w, Tick(c));
            && b in t.refs
            && (t.moves == w.moves ==> t.refs == w.refs)
            && (t.moves != w.moves ==> |t.moves| > |w.moves| && LogsMove(w, t, b, NewMove(w, t)))
            && (t.calls[c].Failed? ==> t.refs == w.refs && t.moves == w.moves)
  {
  }

  /** Every write is logged with the tip it replaced, and a call that fails at a step moves nothing. */
  lemma StepIsLogged(w: World, e: Event, b: Branch)
    requires Inv(w) && b in w.refs
    ensures var t := Step(w, e);
            && b in t.refs
            && (t.moves == w.moves ==> t.refs == w.refs)
            && (t.moves != w.moves ==> |t.moves| > |w.moves| && LogsMove(w, t, b, NewMove(w, t)))
            && (e.Tick? && e.c in t.calls && t.calls[e.c].Failed? ==> t.refs == w.refs && t.moves == w.moves)
  {
    if e.Tick? && e.c in w.calls && Writes(w.calls[e.c]) {
      WriteIsLogged(w, e.c, b);
    } else {
      QuietStep(w, e, b);
    }
  }

  // ---------------------------------------------------------------- whole runs

  function RunAll(w: World, es: seq<Event>): World
    requires Inv(w)
    ensures Inv(RunAll(w, es))
    decreases |es|
  {
    if es == [] then w
    else
      StepKeepsInv(w, es[0]);
      RunAll(Step(w, es[0]), es[1..])
  }

  lemma {:induction false} RunExtends(w: World, es: seq<Event>)
    requires Inv(w)
    ensures Extends(w.graph, RunAll(w, es).graph)
    decreases |es|
  {
    if es != [] {
      var n := Step(w, es[0]);
      StepKeepsInv(w, es[0]);
      RunExtends(n, es[1..]);
      ExtendsTransitive(w.graph, n.graph, RunAll(w, es).graph);
    }
  }

  lemma ExtendsTransitive(a: Graph, b: Graph, c: Graph)
    requires Extends(a, b) && Extends(b, c)
    ensures Extends(a, c)
  {
    assert a == b[..|a|] == c[..|b|][..|a|] == c[..|a|];
  }

  /** No step of the run rewinds the branch. */
  predicate NeverRewound(w: World, es: seq<Event>, b: Branch)
    requires Inv(w) && b in w.refs
    decreases |es|
  {
    es == []
    || (!Rewinds(w, es[0], b)
        && (StepKeepsHistoryIff(w, es[0], b); NeverRewound(Step(w, es[0]), es[1..], b)))
  }

  /** Every tip the branch has had over a run, in order, the first one included. */
  function Tips(w: World, es: seq<Event>, b: Branch): (tips: seq<Sha>)
    requires Inv(w) && b in w.refs
    ensures |tips| == |es| + 1
    decreases |es|
  {
    if es == [] then [w.refs[b]]
    else
      StepKeepsHistoryIff(w, es[0], b);
      [w.refs[b]] + Tips(Step(w, es[0]), es[1..], b)
  }

  /** Every tip is a commit of the graph. */
  predicate Stored(g: Graph, tips: seq<Sha>) {
    forall i :: 0 <= i < |tips| ==> tips[i] < |g|
  }

  lemma {:induction false} TipsStored(w: World, es: seq<Event>, b: Branch)
    requires Inv(w) && b in w.refs
    ensures var tips, t := Tips(w, es, b), RunAll(w, es);
            && b in t.refs && tips[0] == w.refs[b] && tips[|es|] == t.refs[b]
            && Stored(t.graph, tips)
    decreases |es|
  {
    RunExtends(w, es);
    if es != [] {
      StepKeepsHistoryIff(w, es[0], b);
      TipsStored(Step(w, es[0]), es[1..], b);
    }
  }

  /** Each tip is an ancestor of every later one. */
  predicate AppendOnly(g: Graph, tips: seq<Sha>)
    requires WellFormed(g) && Stored(g, tips)
  {
    forall i, j :: 0 <= i <= j < |tips| ==> IsAncestor(g, tips[i], tips[j])
  }

  lemma AppendOnlyTail(g: Graph, tips: seq<Sha>)
    requires WellFormed(g) && |tips| > 1 && Stored(g, tips) && AppendOnly(g, tips)
    ensures IsAncestor(g, tips[0], tips[1]) && AppendOnly(g, tips[1..])
  {
    var rest := tips[1..];
    forall i, j | 0 <= i <= j < |rest| ensures IsAncestor(g, rest[i], rest[j]) {
      var k, l := i + 1, j + 1;
      assert rest[i] == tips[k] && rest[j] == tips[l];
    }
  }

  lemma AppendOnlyCons(g: Graph, tips: seq<Sha>)
    requires WellFormed(g) && |tips| > 1 && Stored(g, tips)
    requires IsAncestor(g, tips[0], tips[1]) && AppendOnly(g, tips[1..])
    ensures AppendOnly(g, tips)
  {
    forall i, j | 0 <= i <= j < |tips| ensures IsAncestor(g, tips[i], tips[j]) {
      LaterTip(g, tips, i, j);
    }
  }

  lemma LaterTip(g: Graph, tips: seq<Sha>, i: nat, j: nat)
    requires WellFormed(g) && |tips| > 1 && Stored(g, tips) && i <= j < |tips|
    requires IsAncestor(g, tips[0], tips[1]) && AppendOnly(g, tips[1..])
    ensures IsAncestor(g, tips[i], tips[j])
  {
    var rest := tips[1..];
    if j > 0 {
      var l := j - 1;
      assert rest[0] == tips[1] && rest[l] == tips[j];
      if i > 0 {
        var k := i - 1;
        assert rest[k] == tips[i];
      } else {
        assert IsAncestor(g, rest[0], rest[l]);
        AncestorTransitive(g, tips[0], tips[1], tips[j]);
      }
    }
  }

  /**
  Append-only history.  From an existing branch, over every interleaving of calls, each tip the branch
  ever had is an ancestor of every later one, the last included, exactly when no step rewinds it.
  */
  lemma {:induction false} HistoryIsAppendOnlyIff(w: World, es: seq<Event>, b: Branch)
    requires Inv(w) && b in w.refs
    ensures Stored(RunAll(w, es).graph, Tips(w, es, b))
    ensures b in RunAll(w, es).refs && Tips(w, es, b)[|es|] == RunAll(w, es).refs[b]
    ensures AppendOnly(RunAll(w, es).graph, Tips(w, es, b)) <==> NeverRewound(w, es, b)
    decreases |es|
  {
    TipsStored(w, es, b);
    if es != [] {
      var n, t, tips := Step(w, es[0]), RunAll(w, es), Tips(w, es, b);
      StepKeepsHistoryIff(w, es[0], b);
      HistoryIsAppendOnlyIff(n, es[1..], b);
      TipsStored(n, es[1..], b);
      assert tips[1..] == Tips(n, es[1..], b);
      if AppendOnly(t.graph, tips) { AppendOnlyTail(t.graph, tips); }
      RunExtends(n, es[1..]);
      AncestorStable(n.graph, t.graph, w.refs[b], n.refs[b]);
      if NeverRewound(w, es, b) { AppendOnlyCons(t.graph, tips); }
    }
  }

  /** The moves of one branch since some point: each starts where the branch then was and goes forward. */
  predicate MovesOk(g: Graph, moves: seq<Move>, b: Branch, tip: Sha)
    requires WellFormed(g) && tip < |g|
  {
    && (forall i :: 0 <= i < |moves| && moves[i].branch == b ==>
          moves[i].before.Some? && IsAncestor(g, moves[i].after, tip)
          && moves[i].before.value <= moves[i].after
          && (moves[i].built ==> moves[i].before.value < moves[i].after))
    && (forall i, j :: 0 <= i < j < |moves| && moves[i].branch == b && moves[j].branch == b ==>
          moves[i].after <= moves[j].before.value)
  }

  lemma MovesGrow(w: World, e: Event, b: Branch)
    requires Inv(w) && b in w.refs && !Rewinds(w, e, b) && MovesOk(w.graph, w.moves, b, w.refs[b])
    ensures var t := Step(w, e);
            Inv(t) && b in t.refs && MovesOk(t.graph, t.moves, b, t.refs[b])
  {
    StepKeepsHistoryIff(w, e, b);
    StepIsLogged(w, e, b);
    var t := Step(w, e);
    forall i | 0 <= i < |w.moves| && w.moves[i].branch == b
      ensures IsAncestor(t.graph, w.moves[i].after, t.refs[b]) && w.moves[i].after <= w.refs[b]
    {
      AncestorStable(w.graph, t.graph, w.moves[i].after, w.refs[b]);
      AncestorTransitive(t.graph, w.moves[i].after, w.refs[b], t.refs[b]);
      AncestorIsOlder(w.graph, w.moves[i].after, w.refs[b]);
    }
    AncestorIsOlder(t.graph, w.refs[b], t.refs[b]);
    if t.moves != w.moves {
      var m := NewMove(w, t);
      assert LogsMove(w, t, b, m);
      if m.branch == b && m.built {
        assert t.graph[m.after].parents[0] < m.after;
      }
    }
  }

  lemma {:induction false} RunMovesOk(w: World, es: seq<Event>, b: Branch)
    requires Inv(w) && b in w.refs && NeverRewound(w, es, b) && MovesOk(w.graph, w.moves, b, w.refs[b])
    ensures var t := RunAll(w, es);
            b in t.refs && MovesOk(t.graph, t.moves, b, t.refs[b])
    decreases |es|
  {
    if es != [] {
      MovesGrow(w, es[0], b);
      RunMovesOk(Step(w, es[0]), es[1..], b);
    }
  }

  /**
  No lost update.  After a run that never rewinds the branch, every commit a call moved it to is still
  in its history, and of the calls that build on one head at most one `commit_files` succeeds: no other
  successful call, of either kind, moved the branch from that head after it.
  */
  lemma NoUpdateIsLost(w: World, es: seq<Event>, b: Branch)
    requires Inv(w) && b in w.refs && NeverRewound(w, es, b) && w.moves == []
    ensures var t := RunAll(w, es);
            && b in t.refs
            && (forall i :: 0 <= i < |t.moves| && t.moves[i].branch == b ==>
                  t.moves[i].after < |t.graph| && IsAncestor(t.graph, t.moves[i].after, t.refs[b]))
            && (forall i, j | 0 <= i < j < |t.moves| && t.moves[i].branch == t.moves[j].branch == b ::
                  t.moves[i].built ==> t.moves[i].before != t.moves[j].before)
  {
    RunMovesOk(w, es, b);
    var t := RunAll(w, es);
    forall i | 0 <= i < |t.moves| && t.moves[i].branch == b ensures t.moves[i].after < |t.graph| {
      AncestorIsOlder(t.graph, t.moves[i].after, t.refs[b]);
    }
  }

  // ---------------------------------------------------------------- runs that cannot rewind

  predicate TargetIn(target: Target, names: set<Branch>) {
    target.Ref? ==> target.name in names
  }

  /**
  The call cannot rewind a branch of the set: it found the branch when it read it, and a ref it is to
  follow is itself in the set and has only gone forward since the check.
  */
  predicate CallGuarded(w: World, names: set<Branch>, call: Call)
    requires WellFormed(w.graph) && forall b :: b in names ==> b in w.refs && w.refs[b] < |w.graph|
  {
    match call
    case UpdateStart(b, target) => b in names ==> TargetIn(target, names)
    case UpdateTipRead(b, target, _) => b in names ==> TargetIn(target, names)
    case UpdateChecked(b, target, _, seen) =>
      b in names ==> TargetIn(target, names) && (target.Ref? ==> IsAncestor(w.graph, seen, w.refs[target.name]))
    case UpdateUnguarded(b, _) => b !in names
    case _ => true
  }

  /**
  Branches that exist, none of them left over for an unguarded write, and closed under the refs
  their updates follow.
  */
  predicate Guarded(w: World, names: set<Branch>)
    requires Inv(w)
  {
    && (forall b :: b in names ==> b in w.refs)
    && forall c :: c in w.calls ==> CallGuarded(w, names, w.calls[c])
  }

  /** Checkable when a request arrives: an update of a branch of the set follows a commit, or a ref of the set. */
  predicate Admissible(e: Event, names: set<Branch>) {
    e.Arrive? && e.call.UpdateStart? && e.call.branch in names ==> TargetIn(e.call.target, names)
  }

  lemma GuardedStepDoesNotRewind(w: World, e: Event, names: set<Branch>, b: Branch)
    requires Inv(w) && Guarded(w, names) && b in names
    ensures !Rewinds(w, e, b)
  {
    if e.Tick? && e.c in w.calls && w.calls[e.c].UpdateChecked? && w.calls[e.c].branch == b {
      var call := w.calls[e.c];
      assert CallGuarded(w, names, call) && CallOk(w.graph, call);
      if call.target.Ref? {
        AncestorTransitive(w.graph, call.tip, call.seen, w.refs[call.target.name]);
      }
    } else if e.Tick? && e.c in w.calls {
      assert CallGuarded(w, names, w.calls[e.c]);
    }
  }

  lemma GuardStaysOn(w: World, e: Event, names: set<Branch>, call: Call)
    requires Inv(w) && Guarded(w, names) && CallGuarded(w, names, call) && CallOk(w.graph, call)
    ensures var t := Step(w, e);
            && Inv(t) && (forall b :: b in names ==> b in t.refs)
            && CallGuarded(t, names, call)
  {
    var t := Step(w, e);
    StepKeepsInv(w, e);
    forall b | b in names ensures b in t.refs && IsAncestor(t.graph, w.refs[b], t.refs[b]) {
      GuardedStepDoesNotRewind(w, e, names, b);
      StepKeepsHistoryIff(w, e, b);
    }
    if call.UpdateChecked? && call.branch in names && call.target.Ref? {
      var n := call.target.name;
      AncestorStable(w.graph, t.graph, call.seen, w.refs[n]);
      AncestorTransitive(t.graph, call.seen, w.refs[n], t.refs[n]);
    }
  }

  /** The call a step leaves behind is guarded too. */
  lemma AdvancedIsGuarded(w: World, c: CallId, names: set<Branch>)
    requires Inv(w) && Guarded(w, names) && c in w.calls
    ensures var t := Step(w, Tick(c));
            && Inv(t) && (forall b :: b in names ==> b in t.refs)
            && CallGuarded(t, names, t.calls[c])
  {
    StepKeepsInv(w, Tick(c));
    GuardStaysOn(w, Tick(c), names, w.calls[c]);
    assert CallGuarded(w, names, w.calls[c]);
  }

  lemma StepKeepsGuarded(w: World, e: Event, names: set<Branch>)
    requires Inv(w) && Guarded(w, names) && Admissible(e, names)
    ensures Inv(Step(w, e)) && Guarded(Step(w, e), names)
  {
    var t := Step(w, e);
    StepKeepsInv(w, e);
    forall b | b in names ensures b in t.refs {
      StepKeepsHistoryIff(w, e, b);
    }
    forall c | c in t.calls ensures CallGuarded(t, names, t.calls[c]) {
      if e.Tick? && e.c == c {
        AdvancedIsGuarded(w, c, names);
      } else if c in w.calls {
        assert t.calls[c] == w.calls[c];
        GuardStaysOn(w, e, names, w.calls[c]);
      }
    }
  }

  /**
  The two protocols together.  Branches that exist, whose updates follow commits or one another, are
  never rewound: over every interleaving each keeps an append-only history.
  */
  lemma {:induction false} GuardedRunNeverRewinds(w: World, es: seq<Event>, names: set<Branch>, b: Branch)
    requires Inv(w) && Guarded(w, names) && b in names
    requires forall i :: 0 <= i < |es| ==> Admissible(es[i], names)
    ensures NeverRewound(w, es, b)
    decreases |es|
  {
    if es != [] {
      assert Admissible(es[0], names);
      GuardedStepDoesNotRewind(w, es[0], names, b);
      StepKeepsGuarded(w, es[0], names);
      GuardedRunNeverRewinds(Step(w, es[0]), es[1..], names, b);
    }
  }

  // ---------------------------------------------------------------- one call by itself

  lemma CommitSees(w: World, c: CallId, b: Branch, change: Change)
    requires Inv(w) && c in w.calls && w.calls[c] == CommitStart(b, change)
    ensures Step(w, Tick(c)).calls[c]
         == if b in w.refs && w.refs[b] == change.expected then CommitHeadSeen(b, change) else Failed(b, StaleBranch)
    ensures Step(w, Tick(c)) == w.(calls := w.calls[c := Step(w, Tick(c)).calls[c]])
  {
  }

  lemma CommitBuilds(w: World, c: CallId, b: Branch, change: Change)
    requires Inv(w) && c in w.calls && w.calls[c] == CommitHeadSeen(b, change) && change.expected < |w.graph|
    ensures var t, tree := Step(w, Tick(c)), w.graph[change.expected].tree;
            && t.refs == w.refs
            && if AllIn(tree, change.deletions) then
                 && t.calls[c].CommitBuilt? && t.calls[c].branch == b && t.calls[c].change == change
                 && t.calls[c].commit < |t.graph| && t.graph[t.calls[c].commit] == NewCommit(w.graph, change)
               else
                 && t.calls[c].Failed? && t.calls[c].failure.MissingPath?
                 && IsFirstMissing(tree, change.deletions, t.calls[c].failure.path)
  {
    FirstMissingIs(w.graph[change.expected].tree, change.deletions);
  }

  lemma CommitSwaps(w: World, c: CallId, b: Branch, change: Change, commit: Sha)
    requires Inv(w) && c in w.calls && w.calls[c] == CommitBuilt(b, change, commit)
    requires b in w.refs && w.refs[b] == change.expected
    ensures var t := Step(w, Tick(c));
            && t.calls[c] == Succeeded(b, commit) && t.refs == w.refs[b := commit] && t.graph == w.graph
  {
  }

  /**
  A `commit_files` call that no other call interrupts: it succeeds exactly when the branch is at the expected
  head and that head holds every path to delete; the branch is then at a commit on that head with the
  changes applied.
  */
  lemma CommitAlone(w: World, c: CallId, b: Branch, change: Change)
    requires Inv(w) && c in w.calls && w.calls[c] == CommitStart(b, change)
    ensures var t := RunAll(w, [Tick(c), Tick(c), Tick(c)]);
            && c in t.calls
            && if !(b in w.refs && w.refs[b] == change.expected) then
                 t.calls[c] == Failed(b, StaleBranch) && t.refs == w.refs
               else if !AllIn(w.graph[change.expected].tree, change.deletions) then
                 && t.calls[c].Failed? && t.calls[c].failure.MissingPath? && t.refs == w.refs
                 && IsFirstMissing(w.graph[change.expected].tree, change.deletions, t.calls[c].failure.path)
               else
                 && t.calls[c].Succeeded? && t.refs == w.refs[b := t.calls[c].commit]
                 && t.calls[c].commit < |t.graph| && BuiltOn(t.graph[t.calls[c].commit], w.graph, change)
  {
    var w1 := Step(w, Tick(c));
    StepKeepsInv(w, Tick(c));
    CommitSees(w, c, b, change);
    ThreeSteps(w, Tick(c), Tick(c), Tick(c));
    if w1.calls[c].CommitHeadSeen? {
      var w2 := Step(w1, Tick(c));
      CommitBuilds(w1, c, b, change);
      StepKeepsInv(w1, Tick(c));
      if w2.calls[c].CommitBuilt? {
        CommitSwaps(w2, c, b, change, w2.calls[c].commit);
      }
    }
  }

  /** A commit whose only parent is the expected head, with that head's tree changed as asked. */
  predicate BuiltOn(commit: Commit, g: Graph, change: Change)
    requires change.expected < |g|
  {
    && commit.parents == [change.expected]
    && commit.tree == Overlay(g[change.expected].tree, change.deletions, change.additions)
    && commit.message == change.message && commit.author == change.author && commit.stamp == change.stamp
  }

  lemma ThreeSteps(w: World, first: Event, second: Event, third: Event)
    requires Inv(w)
    ensures Inv(Step(w, first)) && Inv(Step(Step(w, first), second))
    ensures RunAll(w, [first, second, third]) == Step(Step(Step(w, first), second), third)
  {
    StepKeepsInv(w, first);
    StepKeepsInv(Step(w, first), second);
    TwoSteps(Step(w, first), second, third);
    assert [first, second, third][1..] == [second, third];
  }

  /**
  An unforced update that no other call interrupts: of a branch that is there it succeeds exactly when its
  target is a descendant of the tip, of one that is not exactly when its target is known to git.
  */
  lemma UpdateAlone(w: World, c: CallId, b: Branch, target: Target)
    requires Inv(w) && c in w.calls && w.calls[c] == UpdateStart(b, target)
    ensures var t, goal := RunAll(w, [Tick(c), Tick(c), Tick(c)]), Resolved(w, target);
            && c in t.calls
            && if goal.Some? && (b in w.refs ==> IsAncestor(w.graph, w.refs[b], goal.value)) then
                 t.calls[c] == Succeeded(b, goal.value) && t.refs == w.refs[b := goal.value]
               else
                 && t.refs == w.refs
                 && t.calls[c] == Failed(b, if b in w.refs then NotFastForward else RefusedByGit)
  {
    var w1 := Step(w, Tick(c));
    ThreeSteps(w, Tick(c), Tick(c), Tick(c));
    if b in w.refs {
      UpdateReads(w, c, b, target);
      assert Resolved(w1, target) == Resolved(w, target);
      if Resolved(w, target).Some? && IsAncestor(w.graph, w.refs[b], Resolved(w, target).value) {
        var goal := Resolved(w, target).value;
        UpdateChecks(w1, c, b, target, w.refs[b], goal);
        UpdateSwaps(Step(w1, Tick(c)), c, b, target, goal, goal);
      }
    } else {
      UpdateMisses(w, c, b, target);
      assert Resolved(w1, target) == Resolved(w, target);
    }
  }

  // ---------------------------------------------------------------- the steps of one update

  lemma UpdateReads(w: World, c: CallId, b: Branch, target: Target)
    requires Inv(w) && c in w.calls && w.calls[c] == UpdateStart(b, target) && b in w.refs
    ensures Step(w, Tick(c)) == w.(calls := w.calls[c := UpdateTipRead(b, target, w.refs[b])])
  {
  }

  lemma UpdateChecks(w: World, c: CallId, b: Branch, target: Target, tip: Sha, seen: Sha)
    requires Inv(w) && c in w.calls && w.calls[c] == UpdateTipRead(b, target, tip)
    requires Resolved(w, target) == Some(seen) && IsAncestor(w.graph, tip, seen)
    ensures Step(w, Tick(c)) == w.(calls := w.calls[c := UpdateChecked(b, target, tip, seen)])
  {
  }

  /** A compare and swap that finds the tip it expects. */
  function Moved(w: World, c: CallId, b: Branch, commit: Sha): World
    requires b in w.refs
  {
    w.(refs := w.refs[b := commit],
       moves := w.moves + [Move(b, Some(w.refs[b]), commit, false)],
       calls := w.calls[c := Succeeded(b, commit)])
  }

  lemma UpdateSwaps(w: World, c: CallId, b: Branch, target: Target, seen: Sha, commit: Sha)
    requires Inv(w) && c in w.calls && b in w.refs && w.calls[c] == UpdateChecked(b, target, w.refs[b], seen)
    requires Resolved(w, target) == Some(commit)
    ensures Step(w, Tick(c)) == Moved(w, c, b, commit)
  {
  }

  lemma UpdateMisses(w: World, c: CallId, b: Branch, target: Target)
    requires Inv(w) && c in w.calls && w.calls[c] == UpdateStart(b, target) && b !in w.refs
    ensures Step(w, Tick(c)) == w.(calls := w.calls[c := UpdateUnguarded(b, target)])
  {
  }

  lemma UpdateForces(w: World, c: CallId, b: Branch, target: Target, commit: Sha)
    requires Inv(w) && c in w.calls && w.calls[c] == UpdateUnguarded(b, target) && b in w.refs
    requires Resolved(w, target) == Some(commit)
    ensures Step(w, Tick(c)) == Moved(w, c, b, commit)
  {
  }

  // ---------------------------------------------------------------- runs that do

  /**
  Two updates of a branch that neither finds: the second to write throws away the commit of the first,
  which had succeeded.
  */
  lemma UnguardedUpdateLosesACommit(root: Commit, mine: Commit, theirs: Commit, b: Branch)
    requires root.parents == [] && mine.parents == [0] && theirs.parents == [0] && mine != theirs
    ensures var g := [root, mine, theirs];
            var w := World(g, map[], map[0 := UpdateStart(b, Object(1)), 1 := UpdateStart(b, Object(2))], []);
            && Inv(w)
            && var made := RunAll(w, [Tick(0), Tick(1), Tick(1)]);
               && made.calls[1] == Succeeded(b, 2) && b in made.refs && made.refs[b] == 2
               && Rewinds(made, Tick(0), b)
               && Step(made, Tick(0)).refs[b] == 1 && !IsAncestor(g, 2, 1)
  {
    var g := [root, mine, theirs];
    var w := World(g, map[], map[0 := UpdateStart(b, Object(1)), 1 := UpdateStart(b, Object(2))], []);
    var w1 := Step(w, Tick(0));
    var w2 := Step(w1, Tick(1));
    var w3 := Step(w2, Tick(1));
    assert w1.calls[1] == UpdateStart(b, Object(2));
    assert w3.refs[b] == 2 && w3.calls[0] == UpdateUnguarded(b, Object(1));
    var es := [Tick(0), Tick(1), Tick(1)];
    assert es[1..] == [Tick(1), Tick(1)] && es[1..][1..] == [Tick(1)] && es[1..][1..][1..] == [];
    assert RunAll(w, es) == RunAll(w1, es[1..]) == RunAll(w2, es[1..][1..]) == RunAll(w3, []) == w3;
    if IsAncestor(g, 2, 1) { AncestorIsOlder(g, 2, 1); }
  }

  lemma {:induction false} RunConcat(w: World, first: seq<Event>, second: seq<Event>)
    requires Inv(w)
    ensures RunAll(w, first + second) == RunAll(RunAll(w, first), second)
    decreases |first|
  {
    if first == [] {
      assert first + second == second;
    } else {
      assert (first + second)[1..] == first[1..] + second;
      StepKeepsInv(w, first[0]);
      RunConcat(Step(w, first[0]), first[1..], second);
    }
  }

  lemma TwoSteps(w: World, first: Event, second: Event)
    requires Inv(w)
    ensures Inv(Step(w, first)) && RunAll(w, [first, second]) == Step(Step(w, first), second)
  {
    StepKeepsInv(w, first);
    StepKeepsInv(Step(w, first), second);
    var es := [first, second];
    assert es[1..] == [second] && es[1..][1..] == [];
    assert RunAll(w, es) == RunAll(Step(w, first), [second]) == RunAll(Step(Step(w, first), second), []);
  }

  /** Branch b is to follow another ref, which two calls are about to make. */
  function FollowingStart(g: Graph, b: Branch, followed: Branch): World {
    var calls := map[0 := UpdateStart(b, Ref(followed)), 1 := UpdateStart(followed, Object(1)),
      2 := UpdateStart(followed, Object(2))];
    World(g, map[b := 2], calls, [])
  }

  /** Both have found the ref missing. */
  function BothMissed(g: Graph, b: Branch, followed: Branch): World {
    FollowingStart(g, b, followed).(calls := map[0 := UpdateStart(b, Ref(followed)),
      1 := UpdateUnguarded(followed, Object(1)), 2 := UpdateUnguarded(followed, Object(2))])
  }

  /** The second has made the ref, at the commit where b is. */
  function SecondMade(g: Graph, b: Branch, followed: Branch): World {
    FollowingStart(g, b, followed).(
      refs := map[b := 2, followed := 2], moves := [Move(followed, None, 2, false)],
      calls := map[0 := UpdateStart(b, Ref(followed)), 1 := UpdateUnguarded(followed, Object(1)),
        2 := Succeeded(followed, 2)])
  }

  /** The update of b has read the tip of its branch. */
  function FollowingRead(g: Graph, b: Branch, followed: Branch): World {
    var w := SecondMade(g, b, followed);
    w.(calls := w.calls[0 := UpdateTipRead(b, Ref(followed), 2)])
  }

  /** It has been checked against the commit the ref names. */
  function FollowingChecked(g: Graph, b: Branch, followed: Branch): World {
    var w := FollowingRead(g, b, followed);
    w.(calls := w.calls[0 := UpdateChecked(b, Ref(followed), 2, 2)])
  }

  /** And the first has moved the ref away. */
  function FirstMoved(g: Graph, b: Branch, followed: Branch): World {
    Moved(FollowingChecked(g, b, followed), 1, followed, 1)
  }

  lemma BothMiss(g: Graph, b: Branch, followed: Branch)
    requires WellFormed(g) && |g| == 3 && b != followed
    ensures Inv(FollowingStart(g, b, followed))
    ensures RunAll(FollowingStart(g, b, followed), [Tick(1), Tick(2)]) == BothMissed(g, b, followed)
  {
    var w := FollowingStart(g, b, followed);
    TwoSteps(w, Tick(1), Tick(2));
    UpdateMisses(w, 1, followed, Object(1));
    UpdateMisses(Step(w, Tick(1)), 2, followed, Object(2));
  }

  lemma SecondMakes(g: Graph, b: Branch, followed: Branch)
    requires WellFormed(g) && |g| == 3 && b != followed
    ensures Inv(BothMissed(g, b, followed))
    ensures Step(BothMissed(g, b, followed), Tick(2)) == SecondMade(g, b, followed)
  {
  }

  lemma FollowingReads(g: Graph, b: Branch, followed: Branch)
    requires WellFormed(g) && |g| == 3 && b != followed
    ensures Inv(SecondMade(g, b, followed))
    ensures Step(SecondMade(g, b, followed), Tick(0)) == FollowingRead(g, b, followed)
  {
    UpdateReads(SecondMade(g, b, followed), 0, b, Ref(followed));
  }

  lemma FollowingIsChecked(g: Graph, b: Branch, followed: Branch)
    requires WellFormed(g) && |g| == 3 && b != followed
    ensures Inv(FollowingRead(g, b, followed))
    ensures Step(FollowingRead(g, b, followed), Tick(0)) == FollowingChecked(g, b, followed)
  {
    UpdateChecks(FollowingRead(g, b, followed), 0, b, Ref(followed), 2, 2);
  }

  lemma FirstMoves(g: Graph, b: Branch, followed: Branch)
    requires WellFormed(g) && |g| == 3 && b != followed && Inv(FollowingChecked(g, b, followed))
    ensures Step(FollowingChecked(g, b, followed), Tick(1)) == FirstMoved(g, b, followed)
  {
    UpdateForces(FollowingChecked(g, b, followed), 1, followed, Object(1), 1);
  }

  lemma FollowingRun(g: Graph, b: Branch, followed: Branch)
    requires WellFormed(g) && |g| == 3 && b != followed
    ensures Inv(FollowingStart(g, b, followed))
    ensures RunAll(FollowingStart(g, b, followed), [Tick(1), Tick(2), Tick(2), Tick(0), Tick(0), Tick(1)])
         == FirstMoved(g, b, followed)
  {
    BothMiss(g, b, followed);
    SecondMakes(g, b, followed);
    FollowingReads(g, b, followed);
    TwoSteps(BothMissed(g, b, followed), Tick(2), Tick(0));
    FollowingIsChecked(g, b, followed);
    FirstMoves(g, b, followed);
    TwoSteps(FollowingRead(g, b, followed), Tick(0), Tick(1));
    var first, second, third := [Tick(1), Tick(2)], [Tick(2), Tick(0)], [Tick(0), Tick(1)];
    RunConcat(FollowingStart(g, b, followed), first, second + third);
    RunConcat(BothMissed(g, b, followed), second, third);
    assert first + (second + third) == [Tick(1), Tick(2), Tick(2), Tick(0), Tick(0), Tick(1)];
  }

  lemma FirstMovedRewinds(g: Graph, b: Branch, followed: Branch)
    requires WellFormed(g) && |g| == 3 && b != followed && !IsAncestor(g, 2, 1)
    ensures var w := FirstMoved(g, b, followed);
            Inv(w) && Rewinds(w, Tick(0), b) && Step(w, Tick(0)) == Moved(w, 0, b, 1)
  {
    UpdateSwaps(FirstMoved(g, b, followed), 0, b, Ref(followed), 2, 1);
  }

  /**
  An update that compares rewinds the branch too when the ref it follows has left the commit it was
  checked against: two calls find that ref missing, the second makes it, and the first moves it away
  between the check and the swap.
  */
  lemma MovedTargetLosesACommit(root: Commit, mine: Commit, theirs: Commit, b: Branch, followed: Branch)
    requires root.parents == [] && mine.parents == [0] && theirs.parents == [0] && mine != theirs && b != followed
    ensures var g := [root, mine, theirs];
            && Inv(FollowingStart(g, b, followed))
            && var moved := RunAll(FollowingStart(g, b, followed),
                                   [Tick(1), Tick(2), Tick(2), Tick(0), Tick(0), Tick(1)]);
               && moved.refs == map[b := 2, followed := 1] && Rewinds(moved, Tick(0), b)
               && Step(moved, Tick(0)).refs[b] == 1 && !IsAncestor(g, 2, 1)
  {
    var g := [root, mine, theirs];
    assert WellFormed(g);
    if IsAncestor(g, 2, 1) { AncestorIsOlder(g, 2, 1); }
    FollowingRun(g, b, followed);
    FirstMovedRewinds(g, b, followed);
  }
}
