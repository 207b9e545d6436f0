/**
The branch table under concurrent writers.  A call that moved a branch puts its row in the table as a
step of its own, so the calls that swapped in one order can record in another.  A `Mirror` is the world
of RefRaces with the rows, and with the records that its successful calls still owe.
*/
module BranchRecording {
  import opened Wrappers
  import opened CommitGraph
  import opened RefRaces

  /** A successful write: whose it is, where it left the branch, and the text its caller puts in the table. */
  datatype Write = Write(c: CallId, branch: Branch, commit: Sha, text: Target)

  datatype Mirror = Mirror(world: World, rows: map<Branch, Target>, owing: multiset<Write>,
                           writes: seq<Write>, records: seq<Write>)

  /** Some call takes its next step on the repository, or one that wrote records its write. */
  datatype Turn = Serve(e: Event) | Record(write: Write)

  /** A commit is recorded under its own name, an update under the text it was asked with. */
  function Asked(call: Call): Target
    requires Writes(call)
  {
    if call.CommitBuilt? then Object(call.commit) else call.target
  }

  function Written(w: World, e: Event): Option<Write>
    requires Inv(w)
  {
    if e.Tick? && e.c in w.calls && Writes(w.calls[e.c]) && Step(w, e).calls[e.c].Succeeded? then
      var done := Step(w, e).calls[e.c];
      Some(Write(e.c, done.branch, done.commit, Asked(w.calls[e.c])))
    else None
  }

  function Served(m: Mirror, world: World, write: Option<Write>): Mirror {
    if write.None? then m.(world := world)
    else m.(world := world, owing := m.owing + multiset{write.value}, writes := m.writes + [write.value])
  }

  function Recorded(m: Mirror, write: Write): Mirror {
    if write !in m.owing then m
    else m.(rows := m.rows[write.branch := write.text], owing := m.owing - multiset{write},
            records := m.records + [write])
  }

  function Next(m: Mirror, turn: Turn): (n: Mirror)
    requires Inv(m.world)
    ensures Inv(n.world)
  {
    match turn
    case Serve(e) => StepKeepsInv(m.world, e); Served(m, Step(m.world, e), Written(m.world, e))
    case Record(write) => Recorded(m, write)
  }

  function Turns(m: Mirror, turns: seq<Turn>): (n: Mirror)
    requires Inv(m.world)
    ensures Inv(n.world)
    decreases |turns|
  {
    if turns == [] then m else Turns(Next(m, turns[0]), turns[1..])
  }

  predicate Agrees(m: Mirror, b: Branch) {
    if b in m.world.refs then b in m.rows && m.rows[b] == Object(m.world.refs[b]) else b !in m.rows
  }

  predicate Settled(m: Mirror, b: Branch) {
    forall write :: write in m.owing ==> write.branch != b
  }

  /** The entries of one branch, in order. */
  function Of(log: seq<Write>, b: Branch): seq<Write>
    decreases |log|
  {
    if log == [] then []
    else Of(log[..|log| - 1], b) + if log[|log| - 1].branch == b then [log[|log| - 1]] else []
  }

  lemma OfLast(log: seq<Write>, write: Write, b: Branch)
    ensures Of(log + [write], b) == if write.branch == b then Of(log, b) + [write] else Of(log, b)
  {
    assert (log + [write])[..|log|] == log;
  }

  function Last(log: seq<Write>): Write
    requires log != []
  {
    log[|log| - 1]
  }

  /**
  Since m0 the ref is where the last write of the branch left it and the row is what the last record
  made it; every write is recorded once or owed once; and a text that is a commit is the commit written.
  */
  ghost predicate Ledger(m0: Mirror, m: Mirror, b: Branch) {
    && RefFollows(m0.world.refs, m.world.refs, Of(m.writes, b), b)
    && RowFollows(m0.rows, m.rows, Of(m.records, b), b)
    && Balanced(m.writes, m.records, m.owing)
    && CommitsNamed(m.writes)
  }

  predicate Balanced(writes: seq<Write>, records: seq<Write>, owing: multiset<Write>) {
    multiset(writes) == multiset(records) + owing
  }

  predicate CommitsNamed(writes: seq<Write>) {
    forall i :: 0 <= i < |writes| ==> NamesCommit(writes[i])
  }

  predicate NamesCommit(write: Write) {
    write.text.Object? ==> write.text.sha == write.commit
  }

  predicate RefFollows(before: map<Branch, Sha>, after: map<Branch, Sha>, writes: seq<Write>, b: Branch) {
    if writes == [] then SameAt(before, after, b) else b in after && after[b] == Last(writes).commit
  }

  predicate RowFollows(before: map<Branch, Target>, after: map<Branch, Target>, records: seq<Write>, b: Branch) {
    if records == [] then SameAt(before, after, b) else b in after && after[b] == Last(records).text
  }

  predicate SameAt<T(==)>(before: map<Branch, T>, after: map<Branch, T>, b: Branch) {
    (b in before <==> b in after) && (b in before ==> before[b] == after[b])
  }

  lemma WrittenMoves(w: World, e: Event)
    requires Inv(w)
    ensures Written(w, e).None? ==> Step(w, e).refs == w.refs
    ensures Written(w, e).Some? ==>
              var write := Written(w, e).value;
              && Step(w, e).refs == w.refs[write.branch := write.commit]
              && NamesCommit(write)
  {
    if e.Tick? && e.c in w.calls {
      assert CallOk(w.graph, w.calls[e.c]);
    }
  }

  lemma ServedKeepsLedger(m0: Mirror, m: Mirror, world: World, write: Option<Write>, b: Branch)
    requires Ledger(m0, m, b)
    requires if write.None? then world.refs == m.world.refs
             else && world.refs == m.world.refs[write.value.branch := write.value.commit]
                  && NamesCommit(write.value)
    ensures Ledger(m0, Served(m, world, write), b)
  {
    if write.Some? {
      WriteFollows(m0.world.refs, m.world.refs, m.writes, write.value, b);
      WriteBalances(m.writes, m.records, m.owing, write.value);
    }
  }

  lemma WriteFollows(before: map<Branch, Sha>, after: map<Branch, Sha>, writes: seq<Write>, write: Write, b: Branch)
    requires RefFollows(before, after, Of(writes, b), b)
    ensures RefFollows(before, after[write.branch := write.commit], Of(writes + [write], b), b)
  {
    OfLast(writes, write, b);
  }

  lemma RecordFollows(before: map<Branch, Target>, after: map<Branch, Target>, records: seq<Write>, write: Write,
                      b: Branch)
    requires RowFollows(before, after, Of(records, b), b)
    ensures RowFollows(before, after[write.branch := write.text], Of(records + [write], b), b)
  {
    OfLast(records, write, b);
  }

  lemma WriteBalances(writes: seq<Write>, records: seq<Write>, owing: multiset<Write>, write: Write)
    requires Balanced(writes, records, owing)
    ensures Balanced(writes + [write], records, owing + multiset{write})
  {
  }

  lemma RecordBalances(writes: seq<Write>, records: seq<Write>, owing: multiset<Write>, write: Write)
    requires Balanced(writes, records, owing) && write in owing
    ensures Balanced(writes, records + [write], owing - multiset{write})
  {
  }

  lemma RecordedKeepsLedger(m0: Mirror, m: Mirror, write: Write, b: Branch)
    requires Ledger(m0, m, b)
    ensures Ledger(m0, Recorded(m, write), b)
  {
    if write in m.owing {
      RecordFollows(m0.rows, m.rows, m.records, write, b);
      RecordBalances(m.writes, m.records, m.owing, write);
    }
  }

  lemma NextKeepsLedger(m0: Mirror, m: Mirror, turn: Turn, b: Branch)
    requires Inv(m.world) && Ledger(m0, m, b)
    ensures Ledger(m0, Next(m, turn), b)
  {
    match turn
    case Serve(e) =>
      WrittenMoves(m.world, e);
      ServedKeepsLedger(m0, m, Step(m.world, e), Written(m.world, e), b);
    case Record(write) => RecordedKeepsLedger(m0, m, write, b);
  }

  lemma {:induction false} TurnsKeepLedger(m0: Mirror, m: Mirror, turns: seq<Turn>, b: Branch)
    requires Inv(m.world) && Ledger(m0, m, b)
    ensures Ledger(m0, Turns(m, turns), b)
    decreases |turns|
  {
    if turns != [] {
      NextKeepsLedger(m0, m, turns[0], b);
      TurnsKeepLedger(m0, Next(m, turns[0]), turns[1..], b);
    }
  }

  lemma {:induction false} OfCounts(log: seq<Write>, b: Branch, write: Write)
    ensures multiset(Of(log, b))[write] == if write.branch == b then multiset(log)[write] else 0
    decreases |log|
  {
    if log != [] {
      var n := |log| - 1;
      OfCounts(log[..n], b, write);
      assert log == log[..n] + [log[n]];
    }
  }

  /** Once nothing is owed, the branch's records are its writes, in some order. */
  lemma RecordsAreWrites(m: Mirror, b: Branch)
    requires Balanced(m.writes, m.records, m.owing) && Settled(m, b)
    ensures multiset(Of(m.writes, b)) == multiset(Of(m.records, b))
  {
    forall write: Write ensures multiset(Of(m.writes, b))[write] == multiset(Of(m.records, b))[write] {
      OfCounts(m.writes, b, write);
      OfCounts(m.records, b, write);
    }
  }

  /** No call has written yet, so none owes a record. */
  predicate Fresh(m: Mirror) {
    m.owing == multiset{} && m.writes == [] && m.records == []
  }

  lemma SettledRowAgreesIff(m: Mirror, t: Mirror, b: Branch)
    requires Agrees(m, b) && Ledger(m, t, b) && Settled(t, b)
    ensures multiset(Of(t.writes, b)) == multiset(Of(t.records, b))
    ensures Agrees(t, b) <==> RecordedLikeWritten(Of(t.writes, b), Of(t.records, b))
  {
    RecordsAreWrites(t, b);
    var writes, records := Of(t.writes, b), Of(t.records, b);
    assert |writes| == |multiset(writes)| && |records| == |multiset(records)|;
    if records != [] {
      assert Last(records) in multiset(writes);
      OfCounts(t.writes, b, Last(records));
      assert NamesCommit(Last(records));
    }
  }

  /** The last to record was asked for a commit, and left the branch where the last to write did. */
  predicate RecordedLikeWritten(writes: seq<Write>, records: seq<Write>) {
    || writes == []
    || (records != [] && Last(records).text.Object? && Last(records).commit == Last(writes).commit)
  }

  /**
  Over every interleaving of calls and records, once no call owes a record of the branch: its records are
  its writes in some order, and the row agrees with the ref exactly when the branch was not written, or
  the last call to record was asked for a commit and left the branch where the last call to write did.
  */
  lemma RowAgreesIff(m: Mirror, turns: seq<Turn>, b: Branch)
    requires Inv(m.world) && Fresh(m) && Agrees(m, b) && Settled(Turns(m, turns), b)
    ensures var t := Turns(m, turns);
            && multiset(Of(t.writes, b)) == multiset(Of(t.records, b))
            && (Agrees(t, b) <==> RecordedLikeWritten(Of(t.writes, b), Of(t.records, b)))
  {
    assert Of([], b) == [];
    TurnsKeepLedger(m, m, turns, b);
    SettledRowAgreesIff(m, Turns(m, turns), b);
  }

  /** Calls that record in the order in which they wrote, and were asked for commits, leave an agreeing row. */
  lemma InOrderRecordsAgree(m: Mirror, turns: seq<Turn>, b: Branch)
    requires Inv(m.world) && Fresh(m) && Agrees(m, b)
    requires Of(Turns(m, turns).records, b) == Of(Turns(m, turns).writes, b) && Settled(Turns(m, turns), b)
    requires forall write :: write in Turns(m, turns).writes && write.branch == b ==> write.text.Object?
    ensures Agrees(Turns(m, turns), b)
  {
    RowAgreesIff(m, turns, b);
    var writes := Of(Turns(m, turns).writes, b);
    if writes != [] {
      assert Last(writes) in multiset(writes);
      OfCounts(Turns(m, turns).writes, b, Last(writes));
    }
  }

  // ---------------------------------------------------------------- records out of order

  lemma {:induction false} TurnsConcat(m: Mirror, first: seq<Turn>, second: seq<Turn>)
    requires Inv(m.world)
    ensures Turns(m, first + second) == Turns(Turns(m, first), second)
    decreases |first|
  {
    if first == [] {
      assert first + second == second;
    } else {
      assert (first + second)[1..] == first[1..] + second;
      TurnsConcat(Next(m, first[0]), first[1..], second);
    }
  }

  function Serving(c: CallId): seq<Turn> {
    [Serve(Tick(c)), Serve(Tick(c)), Serve(Tick(c))]
  }

  lemma ServingTurns(m: Mirror, c: CallId)
    requires Inv(m.world)
    ensures var serve := Serve(Tick(c));
            Turns(m, Serving(c)) == Next(Next(Next(m, serve), serve), serve)
  {
    var turns := Serving(c);
    assert turns[1..][1..] == [Serve(Tick(c))] && turns[1..][1..][1..] == [];
    var m1 := Next(m, turns[0]);
    var m2 := Next(m1, turns[0]);
    assert Turns(m, turns) == Turns(m1, turns[1..]) == Turns(m2, turns[1..][1..]) == Turns(Next(m2, turns[0]), []);
  }

  lemma QuietTurn(m: Mirror, c: CallId)
    requires Inv(m.world) && c in m.world.calls && !Writes(m.world.calls[c])
    ensures Next(m, Serve(Tick(c))) == m.(world := Step(m.world, Tick(c)))
  {
  }

  lemma WritingTurn(m: Mirror, c: CallId, b: Branch, sha: Sha)
    requires Inv(m.world) && c in m.world.calls && Writes(m.world.calls[c]) && b in m.world.refs
    requires Step(m.world, Tick(c)) == Moved(m.world, c, b, sha)
    ensures Next(m, Serve(Tick(c)))
         == Served(m, Moved(m.world, c, b, sha), Some(Write(c, b, sha, Asked(m.world.calls[c]))))
  {
  }

  /** An update of a branch to a descendant of its tip, served without interruption. */
  lemma ServedUpdate(m: Mirror, c: CallId, b: Branch, sha: Sha)
    requires Inv(m.world) && c in m.world.calls && m.world.calls[c] == UpdateStart(b, Object(sha))
    requires b in m.world.refs && sha < |m.world.graph| && IsAncestor(m.world.graph, m.world.refs[b], sha)
    ensures Turns(m, Serving(c)) == Served(m, Moved(m.world, c, b, sha), Some(Write(c, b, sha, Object(sha))))
  {
    var turn, tip := Serve(Tick(c)), m.world.refs[b];
    ServingTurns(m, c);
    var m1 := Next(m, turn);
    QuietTurn(m, c);
    UpdateReads(m.world, c, b, Object(sha));
    var m2 := Next(m1, turn);
    QuietTurn(m1, c);
    UpdateChecks(m1.world, c, b, Object(sha), tip, sha);
    UpdateSwaps(m2.world, c, b, Object(sha), sha, sha);
    WritingTurn(m2, c, b, sha);
    assert Moved(m2.world, c, b, sha) == Moved(m.world, c, b, sha);
  }

  /** Two updates have arrived: to a child of the branch's tip, and to that child's child. */
  function Arrived(g: Graph, b: Branch): Mirror {
    var calls := map[0 := UpdateStart(b, Object(1)), 1 := UpdateStart(b, Object(2))];
    Mirror(World(g, map[b := 0], calls, []), map[b := Object(0)], multiset{}, [], [])
  }

  lemma ArrivedIsFresh(root: Commit, mine: Commit, theirs: Commit, b: Branch)
    requires root.parents == [] && mine.parents == [0] && theirs.parents == [1]
    ensures var g := [root, mine, theirs];
            && Inv(Arrived(g, b).world) && Fresh(Arrived(g, b)) && Agrees(Arrived(g, b), b)
            && IsAncestor(g, 0, 1) && IsAncestor(g, 1, 2)
  {
    var g := [root, mine, theirs];
    assert g[1].parents[0] == 0 && IsAncestor(g, 0, g[1].parents[0]);
    assert g[2].parents[0] == 1 && IsAncestor(g, 1, g[2].parents[0]);
  }

  /** Both have written, in order, and owe their records. */
  function BothWritten(g: Graph, b: Branch): Mirror {
    var w := Arrived(g, b).world;
    var first, second := Write(0, b, 1, Object(1)), Write(1, b, 2, Object(2));
    Served(Served(Arrived(g, b), Moved(w, 0, b, 1), Some(first)), Moved(Moved(w, 0, b, 1), 1, b, 2), Some(second))
  }

  lemma BothWrite(g: Graph, b: Branch)
    requires |g| == 3 && Inv(Arrived(g, b).world) && IsAncestor(g, 0, 1) && IsAncestor(g, 1, 2)
    ensures Turns(Arrived(g, b), Serving(0) + Serving(1)) == BothWritten(g, b)
  {
    var m := Arrived(g, b);
    TurnsConcat(m, Serving(0), Serving(1));
    assert Turns(m, Serving(0)) == Served(m, Moved(m.world, 0, b, 1), Some(Write(0, b, 1, Object(1)))) by {
      ServedUpdate(m, 0, b, 1);
    }
    SecondWrites(Turns(m, Serving(0)), b);
  }

  lemma SecondWrites(m: Mirror, b: Branch)
    requires Inv(m.world) && |m.world.graph| == 3 && IsAncestor(m.world.graph, 1, 2)
    requires 1 in m.world.calls && m.world.calls[1] == UpdateStart(b, Object(2))
    requires b in m.world.refs && m.world.refs[b] == 1
    ensures Turns(m, Serving(1)) == Served(m, Moved(m.world, 1, b, 2), Some(Write(1, b, 2, Object(2))))
  {
    ServedUpdate(m, 1, b, 2);
  }

  lemma TwoTurns(m: Mirror, first: Turn, second: Turn)
    requires Inv(m.world)
    ensures Turns(m, [first, second]) == Next(Next(m, first), second)
  {
    var turns := [first, second];
    assert turns[1..] == [second] && turns[1..][1..] == [];
    assert Turns(m, turns) == Turns(Next(m, first), [second]) == Turns(Next(Next(m, first), second), []);
  }

  /** The first two writes, each in full, and then the records of the second and of the first. */
  function CrossedTurns(b: Branch): seq<Turn> {
    Serving(0) + Serving(1) + [Record(Write(1, b, 2, Object(2))), Record(Write(0, b, 1, Object(1)))]
  }

  function Crossed(g: Graph, b: Branch): Mirror {
    Recorded(Recorded(BothWritten(g, b), Write(1, b, 2, Object(2))), Write(0, b, 1, Object(1)))
  }

  lemma CrossedRun(g: Graph, b: Branch)
    requires |g| == 3 && Inv(Arrived(g, b).world) && IsAncestor(g, 0, 1) && IsAncestor(g, 1, 2)
    ensures Turns(Arrived(g, b), CrossedTurns(b)) == Crossed(g, b)
  {
    var second, first := Record(Write(1, b, 2, Object(2))), Record(Write(0, b, 1, Object(1)));
    BothWrite(g, b);
    TurnsConcat(Arrived(g, b), Serving(0) + Serving(1), [second, first]);
    TwoTurns(BothWritten(g, b), second, first);
  }

  lemma CrossedValues(g: Graph, b: Branch)
    ensures var t := Crossed(g, b);
            && t.world.calls == map[0 := Succeeded(b, 1), 1 := Succeeded(b, 2)] && t.owing == multiset{}
            && t.world.refs == map[b := 2] && t.rows == map[b := Object(1)]
  {
  }

  /**
  They write one after the other and record the other way round: both succeed, no call is left in flight
  or owes a record, and the row stays at the commit the branch has left.
  */
  lemma CrossedRecordsDisagree(root: Commit, mine: Commit, theirs: Commit, b: Branch)
    requires root.parents == [] && mine.parents == [0] && theirs.parents == [1]
    ensures var m := Arrived([root, mine, theirs], b);
            && Inv(m.world) && Fresh(m) && Agrees(m, b)
            && var t := Turns(m, CrossedTurns(b));
               && t.world.calls == map[0 := Succeeded(b, 1), 1 := Succeeded(b, 2)] && t.owing == multiset{}
               && t.world.refs == map[b := 2] && t.rows == map[b := Object(1)]
  {
    var g := [root, mine, theirs];
    ArrivedIsFresh(root, mine, theirs, b);
    CrossedRun(g, b);
    CrossedValues(g, b);
  }
}
