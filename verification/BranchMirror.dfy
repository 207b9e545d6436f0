/**
The branch table, an index that must agree with the refs of the repository on disk: creating,
updating and deleting a ref, and recording each change in the table and on open pull requests.
Reading a ref and swapping it is one step here; interleaved callers are the subject of RefRaces.
*/
module BranchMirror {
  import opened Wrappers
  import opened Text

  datatype Protection = Protection(locked: bool, allowForcePushes: bool, allowDeletions: bool)

  datatype Row = Row(repo: nat, name: string, sha: string, protection: Option<Protection>)

  datatype Pull = Pull(repo: nat, headRef: string, headSha: string, open: bool, lastPushBy: Option<nat>)

  /**
  The refs on disk of one repository, by the name they are written under; the ref its symbolic HEAD
  names, the default branch; and the tables of the database.
  */
  datatype World = World(refs: map<string, string>, head: string, rows: map<nat, Row>, nextId: nat,
                         pulls: map<nat, Pull>)

  /**
  What git knows: which commit a text names, ancestry, which ref names it accepts for a new value and
  which for a removal, and which texts that begin with a hyphen it reads as its option to remove.
  */
  datatype Git = Git(
    resolve: string -> Option<string>,
    isAncestor: (string, string) -> bool,
    accepts: string -> bool,
    removes: string -> bool,
    option: string -> bool)

  datatype Request =
    | Create(ref: string, sha: string)
    | Update(ref: string, sha: string, force: bool)
    | Delete(ref: string)

  datatype Result =
    | Done | BadRequest | ManyRows | LockedBranch
      | ForceNotAllowed | NotFastForward | NotDeletable | NoSuchRef | GitFailed

  const REFS := "refs/"
  const HEADS := "refs/heads/"

  function Full(ref: string): string {
    if StartsWith(ref, REFS) then ref else REFS + ref
  }

  function BranchName(ref: string): Option<string> {
    if StartsWith(Full(ref), HEADS) then Some(Full(ref)[|HEADS|..]) else None
  }

  function Head(name: string): string {
    HEADS + name
  }

  lemma HeadFacts(name: string, ref: string)
    ensures StartsWith(Head(name), HEADS) && StartsWith(Head(name), REFS)
    ensures Full(ref) == Head(name) <==> BranchName(ref) == Some(name)
    ensures StartsWith(Full(ref), REFS)
  {
    assert Head(name)[..|HEADS|] == HEADS;
    assert Head(name)[..|REFS|] == HEADS[..|REFS|] == REFS;
    assert Head(name)[|HEADS|..] == name;
    assert !StartsWith(ref, REFS) ==> (REFS + ref)[..|REFS|] == REFS;
    if StartsWith(Full(ref), HEADS) {
      assert Full(ref) == Full(ref)[..|HEADS|] + Full(ref)[|HEADS|..];
    }
  }

  // ---------------------------------------------------------------- rows

  predicate Is(row: Row, repo: nat, name: string) {
    row.repo == repo && row.name == name
  }

  function Named(rows: map<nat, Row>, repo: nat, name: string): set<nat> {
    set id | id in rows && Is(rows[id], repo, name)
  }

  /** No two rows have this name, so looking the row up does not raise. */
  predicate OneRow(rows: map<nat, Row>, repo: nat, name: string) {
    forall i, j :: i in Named(rows, repo, name) && j in Named(rows, repo, name) ==> i == j
  }

  predicate OneRowIfBranch(rows: map<nat, Row>, repo: nat, ref: string) {
    BranchName(ref).Some? ==> OneRow(rows, repo, BranchName(ref).value)
  }

  /** Some row of the branch is protected in the given way. */
  predicate Guarded(rows: map<nat, Row>, repo: nat, ref: string, guard: Protection -> bool) {
    && BranchName(ref).Some?
    && exists id :: id in Named(rows, repo, BranchName(ref).value) && rows[id].protection.Some? &&
         guard(rows[id].protection.value)
  }

  function Recorded(rows: map<nat, Row>, nextId: nat, repo: nat,
                    name: string, sha: Option<string>): (map<nat, Row>, nat) {
    if sha.None? then (map id | id in rows && !Is(rows[id], repo, name) :: rows[id], nextId)
    else if Named(rows, repo, name) == {} then (rows[nextId := Row(repo, name, sha.value, None)], nextId + 1)
    else (map id | id in rows :: if Is(rows[id], repo, name) then rows[id].(sha := sha.value) else rows[id], nextId)
  }

  predicate Follows(pull: Pull, repo: nat, name: string) {
    pull.open && pull.repo == repo && pull.headRef == name
  }

  function Pushed(pulls: map<nat, Pull>, repo: nat, name: string, sha: Option<string>, user: nat): map<nat, Pull> {
    if sha.None? then pulls
    else
      map id | id in pulls ::
        if Follows(pulls[id], repo, name) then pulls[id].(headSha := sha.value, lastPushBy := Some(user)) else pulls[id]
  }

  /** `_record_branch_change`; a sha of None records a deletion. */
  function Record(w: World, repo: nat, ref: string, sha: Option<string>, user: nat): (World, Result) {
    if !OneRowIfBranch(w.rows, repo, ref) then (w, ManyRows)
    else if BranchName(ref).None? then (w, Done)
    else
      var name := BranchName(ref).value;
      var (rows, nextId) := Recorded(w.rows, w.nextId, repo, name, sha);
      (w.(rows := rows, nextId := nextId, pulls := Pushed(w.pulls, repo, name, sha, user)), Done)
  }

  // ---------------------------------------------------------------- the three routes

  /** The null object name: as a new value it means that the ref is to go. */
  const NULL_NAME := "0000000000000000000000000000000000000000"

  const HEAD := "HEAD"

  /** HEAD is symbolic: what is done to it is done to the ref it names. */
  function Followed(head: string, ref: string): string {
    if ref == HEAD then head else ref
  }

  predicate IsOption(git: Git, text: string) {
    StartsWith(text, "-") && git.option(text)
  }

  /** What `git update-ref` is told to do: set a ref to a commit, or remove it. */
  datatype Order = Order(target: string, value: Option<string>)

  /** How git reads `update-ref ref sha`, or None when it refuses. */
  function Ordered(head: string, git: Git, ref: string, sha: string): Option<Order> {
    if IsOption(git, ref) then
      if IsOption(git, sha) || !git.removes(sha) then None else Some(Order(Followed(head, sha), None))
    else if sha == NULL_NAME || IsOption(git, sha) then
      if git.removes(ref) then Some(Order(Followed(head, ref), None)) else None
    else if !git.accepts(ref) || git.resolve(sha).None? then None
    else Some(Order(Followed(head, ref), git.resolve(sha)))
  }

  function Carried(refs: map<string, string>, order: Order): map<string, string> {
    if order.value.None? then refs - {order.target} else refs[order.target := order.value.value]
  }

  /** `git update-ref ref sha [expected]`: the order is carried out if the ref still is as expected. */
  function GitUpdateRef(refs: map<string, string>, head: string, git: Git, ref: string, sha: string,
                        expected: Option<string>): Option<map<string, string>> {
    var order := Ordered(head, git, ref, sha);
    if order.None? then None
    else if expected.Some? && (order.value.target !in refs || refs[order.value.target] != expected.value) then None
    else Some(Carried(refs, order.value))
  }

  /** What `git merge-base --is-ancestor tip sha` answers: no, too, when the text names no commit. */
  predicate FastForward(git: Git, tip: string, sha: string) {
    && sha != NULL_NAME && !IsOption(git, sha)
    && git.resolve(sha).Some? && git.isAncestor(tip, git.resolve(sha).value)
  }

  function DoCreate(w: World, git: Git, repo: nat, ref: string, sha: string, user: nat): (World, Result) {
    if ref == "" || sha == "" then (w, BadRequest)
    else
      var refs := GitUpdateRef(w.refs, w.head, git, ref, sha, None);
      if refs.None? then (w, GitFailed) else Record(w.(refs := refs.value), repo, ref, Some(sha), user)
  }

  function DoUpdate(w: World, git: Git, repo: nat, ref: string, sha: string, force: bool, user: nat): (World, Result) {
    var full := Full(ref);
    var tip := if !force && full in w.refs then Some(w.refs[full]) else None;
    if !OneRowIfBranch(w.rows, repo, full) then (w, ManyRows)
    else if Guarded(w.rows, repo, full, (p: Protection) => p.locked) then (w, LockedBranch)
    else if force && Guarded(w.rows, repo, full, (p: Protection) => !p.allowForcePushes) then (w, ForceNotAllowed)
    else if tip.Some? && !FastForward(git, tip.value, sha) then (w, NotFastForward)
    else
      var refs := GitUpdateRef(w.refs, w.head, git, full, sha, tip);
      if refs.None? then (w, GitFailed) else Record(w.(refs := refs.value), repo, full, Some(sha), user)
  }

  function DoDelete(w: World, repo: nat, ref: string, user: nat): (World, Result) {
    var full := Full(ref);
    if full !in w.refs then (w, NoSuchRef)
    else if !OneRowIfBranch(w.rows, repo, full) then (w, ManyRows)
    else if Guarded(w.rows, repo, full, (p: Protection) => !p.allowDeletions) then (w, NotDeletable)
    else Record(w.(refs := w.refs - {full}), repo, full, None, user)
  }

  function Step(w: World, git: Git, repo: nat, request: Request, user: nat): (World, Result) {
    match request
    case Create(ref, sha) => DoCreate(w, git, repo, ref, sha, user)
    case Update(ref, sha, force) => DoUpdate(w, git, repo, ref, sha, force, user)
    case Delete(ref) => DoDelete(w, repo, ref, user)
  }

  // ---------------------------------------------------------------- agreement

  /** A row (name, sha) exists exactly when the branch name is at sha on disk. */
  ghost predicate Mirrors(refs: map<string, string>, rows: map<nat, Row>, repo: nat) {
    && (forall id :: id in rows && rows[id].repo == repo ==>
         Head(rows[id].name) in refs && refs[Head(rows[id].name)] == rows[id].sha)
    && (forall name: string :: Head(name) in refs ==> Named(rows, repo, name) != {})
  }

  ghost predicate Sound(rows: map<nat, Row>, nextId: nat, repo: nat) {
    && (forall id :: id in rows ==> id < nextId)
    && (forall name: string :: OneRow(rows, repo, name))
  }

  ghost predicate Agrees(w: World, repo: nat) {
    Sound(w.rows, w.nextId, repo) && Mirrors(w.refs, w.rows, repo)
  }

  function RequestOrder(w: World, git: Git, request: Request): Option<Order> {
    match request
    case Create(ref, sha) => Ordered(w.head, git, ref, sha)
    case Update(ref, sha, _) => Ordered(w.head, git, Full(ref), sha)
    case Delete(ref) => Some(Order(Full(ref), None))
  }

  /** The order leaves the ref as it is. */
  predicate Idle(refs: map<string, string>, order: Order) {
    if order.value.None? then order.target !in refs
    else order.target in refs && refs[order.target] == order.value.value
  }

  /**
  What can be checked before the call.  A request that records a branch is right when it sets that very
  branch, and to the text it records; one that records none is right when it leaves every branch alone.
  */
  predicate Faithful(w: World, git: Git, request: Request) {
    match request
    case Delete(_) => true
    case Update(ref, sha, _) => BranchName(ref).Some? ==> SetsTo(w, git, request, sha)
    case Create(ref, sha) =>
      if BranchName(ref).None? then LeavesBranches(w, git, request)
      else if StartsWith(ref, REFS) then SetsTo(w, git, request, sha)
      else Head(BranchName(ref).value) in w.refs && w.refs[Head(BranchName(ref).value)] == sha
  }

  predicate SetsTo(w: World, git: Git, request: Request, sha: string) {
    RequestOrder(w, git, request).Some? && RequestOrder(w, git, request).value.value == Some(sha)
  }

  predicate LeavesBranches(w: World, git: Git, request: Request) {
    var order := RequestOrder(w, git, request);
    order.Some? && StartsWith(order.value.target, HEADS) ==> Idle(w.refs, order.value)
  }

  /** Elsewhere than at one branch, the two ref maps hold the same heads. */
  ghost predicate SameElsewhere(refs: map<string, string>, moved: map<string, string>, name: string) {
    forall other: string :: other != name ==>
      (Head(other) in refs <==> Head(other) in moved) &&
        (Head(other) in refs ==> refs[Head(other)] == moved[Head(other)])
  }

  predicate HeadIs(refs: map<string, string>, name: string, sha: Option<string>) {
    if sha.None? then Head(name) !in refs else Head(name) in refs && refs[Head(name)] == sha.value
  }

  lemma RecordedIsSound(rows: map<nat, Row>, nextId: nat, repo: nat, name: string, sha: Option<string>)
    requires Sound(rows, nextId, repo)
    ensures var (after, next) := Recorded(rows, nextId, repo, name, sha); Sound(after, next, repo)
  {
    var (after, next) := Recorded(rows, nextId, repo, name, sha);
    forall other: string ensures OneRow(after, repo, other) {
      assert OneRow(rows, repo, other);
      if sha.Some? && Named(rows, repo, name) == {} && other == name {
        assert forall id :: id in Named(after, repo, name) && id != nextId ==> id in Named(rows, repo, name);
      } else {
        forall i, j | i in Named(after, repo, other) && j in Named(after, repo, other) ensures i == j {
          assert i in Named(rows, repo, other) && j in Named(rows, repo, other);
        }
      }
    }
  }

  /** The rows of a name after a change was recorded: one with the new sha, or none. */
  lemma RecordedRows(rows: map<nat, Row>, nextId: nat, repo: nat, name: string, sha: Option<string>)
    requires Sound(rows, nextId, repo)
    ensures var (after, next) := Recorded(rows, nextId, repo, name, sha);
            && (forall id :: id in Named(after, repo, name) ==> sha.Some? && after[id].sha == sha.value)
            && (Named(after, repo, name) == {} <==> sha.None?)
            && (forall id :: id in after && !Is(after[id], repo, name) ==> id in rows && rows[id] == after[id])
            && (forall id :: id in rows && !Is(rows[id], repo, name) ==> id in after && rows[id] == after[id])
  {
    var (after, next) := Recorded(rows, nextId, repo, name, sha);
    if sha.Some? {
      if Named(rows, repo, name) == {} {
        assert nextId in Named(after, repo, name);
        forall id | id in Named(after, repo, name) ensures after[id].sha == sha.value {
          assert id != nextId ==> id in Named(rows, repo, name);
        }
      } else {
        var id :| id in Named(rows, repo, name);
        assert id in Named(after, repo, name);
      }
    }
  }

  /** Recording a change of one branch keeps the agreement exactly when that branch is where the record says. */
  lemma RecordedMirrorsIff(refs: map<string, string>, moved: map<string, string>, rows: map<nat, Row>, nextId: nat,
                           repo: nat, name: string, sha: Option<string>)
    requires Sound(rows, nextId, repo) && Mirrors(refs, rows, repo) && SameElsewhere(refs, moved, name)
    ensures Mirrors(moved, Recorded(rows, nextId, repo, name, sha).0, repo) <==> HeadIs(moved, name, sha)
  {
    var after := Recorded(rows, nextId, repo, name, sha).0;
    RecordedRows(rows, nextId, repo, name, sha);
    if HeadIs(moved, name, sha) {
      forall id | id in after && after[id].repo == repo
        ensures Head(after[id].name) in moved && moved[Head(after[id].name)] == after[id].sha {
        if after[id].name == name { assert id in Named(after, repo, name); }
      }
      forall other: string | Head(other) in moved ensures Named(after, repo, other) != {} {
        if other != name {
          var id :| id in Named(rows, repo, other);
          assert id in Named(after, repo, other);
        }
      }
    }
    if Mirrors(moved, after, repo) && sha.Some? {
      var id :| id in Named(after, repo, name);
      assert after[id].repo == repo;
    }
  }

  /** The two ref maps differ at most at one ref. */
  ghost predicate OnlyAt(refs: map<string, string>, moved: map<string, string>, written: string) {
    forall ref: string :: ref != written ==>
      (ref in refs <==> ref in moved) && (ref in refs ==> refs[ref] == moved[ref])
  }

  lemma NotAHead(ref: string, other: string)
    requires BranchName(ref).None? || BranchName(ref) != Some(other)
    ensures Head(other) != Full(ref) && Head(other) != ref
  {
    HeadFacts(other, ref);
  }

  ghost predicate SameAt(refs: map<string, string>, moved: map<string, string>, ref: string) {
    (ref in refs <==> ref in moved) && (ref in refs ==> refs[ref] == moved[ref])
  }

  /** A write that is not recorded keeps the agreement exactly when it is to no branch, or changes nothing. */
  lemma UnrecordedMirrorsIff(refs: map<string, string>, moved: map<string, string>, rows: map<nat, Row>, repo: nat,
                             written: string)
    requires Mirrors(refs, rows, repo) && OnlyAt(refs, moved, written)
    ensures Mirrors(moved, rows, repo) <==> (StartsWith(written, HEADS) ==> SameAt(refs, moved, written))
  {
    if StartsWith(written, HEADS) && !SameAt(refs, moved, written) {
      var name := written[|HEADS|..];
      assert written == Head(name);
      if written in refs {
        var id :| id in Named(rows, repo, name);
        assert rows[id].repo == repo && rows[id].name == name;
      } else {
        assert Named(rows, repo, name) == {} by {
          forall id | id in Named(rows, repo, name) ensures rows[id].repo == repo && Head(rows[id].name) == written { }
        }
      }
    } else {
      forall name: string ensures SameAt(refs, moved, Head(name)) {
        HeadFacts(name, written);
      }
    }
  }

  lemma CarriedIdleIff(refs: map<string, string>, order: Order)
    ensures OnlyAt(refs, Carried(refs, order), order.target)
    ensures SameAt(refs, Carried(refs, order), order.target) <==> Idle(refs, order)
  {
  }

  /** A record made after a ref was written or removed. */
  lemma RecordAgreesIff(w: World, moved: map<string, string>, ref: string, written: string, repo: nat,
                        sha: Option<string>, user: nat)
    requires Agrees(w, repo) && BranchName(ref).Some? && (written == ref || written == Full(ref))
    requires OnlyAt(w.refs, moved, written)
    ensures var (after, result) := Record(w.(refs := moved), repo, ref, sha, user);
            && result == Done
            && Sound(after.rows, after.nextId, repo)
            && (Agrees(after, repo) <==> HeadIs(moved, BranchName(ref).value, sha))
  {
    var name := BranchName(ref).value;
    assert OneRow(w.rows, repo, name);
    forall other: string | other != name ensures Head(other) != written { NotAHead(ref, other); }
    assert SameElsewhere(w.refs, moved, name);
    RecordedIsSound(w.rows, w.nextId, repo, name, sha);
    RecordedMirrorsIff(w.refs, moved, w.rows, w.nextId, repo, name, sha);
  }

  lemma OptionIsNoBranch(git: Git, ref: string)
    ensures IsOption(git, ref) || ref == HEAD ==> BranchName(ref).None?
    ensures StartsWith(ref, REFS) ==> !IsOption(git, ref) && ref != HEAD
  {
    if StartsWith(ref, REFS) { assert ref[0] == REFS[0]; }
    if IsOption(git, ref) {
      assert ref[0] == '-';
      assert Full(ref)[5] == '-';
    }
    if ref == HEAD { assert Full(ref)[5] == 'H'; }
    assert StartsWith(Full(ref), HEADS) ==> Full(ref)[5] == HEADS[5] == 'h';
  }

  function Target(request: Request): string {
    if request.Create? then request.ref else Full(request.ref)
  }

  function RecordedSha(request: Request): Option<string> {
    if request.Delete? then None else Some(request.sha)
  }

  /** A request does nothing, or carries out its order and then records the change. */
  lemma StepShape(w: World, git: Git, repo: nat, request: Request, user: nat)
    ensures var (after, result) := Step(w, git, repo, request, user);
            || after == w
            || (RequestOrder(w, git, request).Some?
                && after == Record(w.(refs := Carried(w.refs, RequestOrder(w, git, request).value)), repo,
                                   Target(request), RecordedSha(request), user).0)
  {
  }

  /** A request that succeeds carried out its order and recorded it, under the same branch name as it was asked for. */
  lemma DoneIsRecorded(w: World, git: Git, repo: nat, request: Request, user: nat)
    requires Step(w, git, repo, request, user).1 == Done
    ensures RequestOrder(w, git, request).Some?
    ensures var order := RequestOrder(w, git, request).value;
            && Step(w, git, repo, request, user)
               == Record(w.(refs := Carried(w.refs, order)), repo, Target(request), RecordedSha(request), user)
            && (BranchName(Target(request)).Some? || !request.Create? ==> order.target == Target(request))
    ensures BranchName(Target(request)) == BranchName(request.ref)
    ensures request.Delete? ==> Full(request.ref) in w.refs
  {
    HeadFacts("", request.ref);
    OptionIsNoBranch(git, Target(request));
    assert Full(Full(request.ref)) == Full(request.ref);
  }

  /** With one row per name, a request that does not succeed changes nothing, and no lookup finds several rows. */
  lemma RefusedChangesNothing(w: World, git: Git, repo: nat, request: Request, user: nat)
    requires Sound(w.rows, w.nextId, repo)
    ensures var (after, result) := Step(w, git, repo, request, user);
            result != ManyRows && (result != Done ==> after == w)
  {
    assert OneRowIfBranch(w.rows, repo, request.ref) && OneRowIfBranch(w.rows, repo, Full(request.ref));
  }

  lemma DoneKeepsAgreementIff(w: World, git: Git, repo: nat, request: Request, user: nat)
    requires Agrees(w, repo) && Step(w, git, repo, request, user).1 == Done
    ensures var after := Step(w, git, repo, request, user).0;
            Sound(after.rows, after.nextId, repo) && (Agrees(after, repo) <==> Faithful(w, git, request))
  {
    DoneIsRecorded(w, git, repo, request, user);
    var order, target := RequestOrder(w, git, request).value, Target(request);
    var moved := Carried(w.refs, order);
    CarriedIdleIff(w.refs, order);
    if BranchName(target).None? {
      UnrecordedMirrorsIff(w.refs, moved, w.rows, repo, order.target);
      HeadFacts("", target);
      if !request.Create? { assert Full(target) == target && !StartsWith(order.target, HEADS); }
    } else {
      var name := BranchName(target).value;
      RecordAgreesIff(w, moved, target, order.target, repo, RecordedSha(request), user);
      HeadFacts(name, target);
      if !StartsWith(target, REFS) { assert order.target != Head(name); }
    }
  }

  /**
  From a table that agrees with the refs, a refused request changes nothing, and one that succeeds keeps
  the agreement exactly when it is faithful: it sets the branch it records to the full name it records
  (not by an unqualified `heads/x`, nor an abbreviation, nor a null name), and a create that records no
  branch, as of HEAD, leaves the branches alone.
  */
  lemma StepKeepsAgreementIff(w: World, git: Git, repo: nat, request: Request, user: nat)
    requires Agrees(w, repo)
    ensures var (after, result) := Step(w, git, repo, request, user);
            && (result != Done ==> after == w)
            && result != ManyRows
            && (result == Done ==>
                 Sound(after.rows, after.nextId, repo) && (Agrees(after, repo) <==> Faithful(w, git, request)))
  {
    RefusedChangesNothing(w, git, repo, request, user);
    if Step(w, git, repo, request, user).1 == Done {
      DoneKeepsAgreementIff(w, git, repo, request, user);
    }
  }

  /** Deleting a ref keeps the agreement, always. */
  lemma DeleteKeepsAgreement(w: World, git: Git, repo: nat, ref: string, user: nat)
    requires Agrees(w, repo)
    ensures Agrees(DoDelete(w, repo, ref, user).0, repo)
  {
    StepKeepsAgreementIff(w, git, repo, Delete(ref), user);
  }

  // ---------------------------------------------------------------- what moves

  /** A request that succeeds carries out its order and nothing else; one that does not moves no ref. */
  lemma SuccessMovesItsRef(w: World, git: Git, repo: nat, request: Request, user: nat)
    requires Agrees(w, repo)
    ensures var (after, result) := Step(w, git, repo, request, user);
            var order := RequestOrder(w, git, request);
            && (result != Done ==> after.refs == w.refs)
            && (result == Done ==>
                  && order.Some? && OnlyAt(w.refs, after.refs, order.value.target)
                  && (order.value.value.None? ==> order.value.target !in after.refs)
                  && (order.value.value.Some? ==>
                        order.value.target in after.refs && after.refs[order.value.target] == order.value.value.value)
                  && (request.Delete? ==> Full(request.ref) in w.refs))
  {
    StepKeepsAgreementIff(w, git, repo, request, user);
  }

  /**
  An update of a branch that exists moves it forward only, when it is unforced or the branch forbids
  forced pushes.
  */
  lemma UpdateMovesForward(w: World, git: Git, repo: nat, ref: string, sha: string, force: bool, user: nat)
    requires !force || Guarded(w.rows, repo, Full(ref), (p: Protection) => !p.allowForcePushes)
    requires Full(ref) in w.refs
    ensures var after := Step(w, git, repo, Update(ref, sha, force), user).0;
            && Full(ref) in after.refs
            && (after.refs == w.refs || git.isAncestor(w.refs[Full(ref)], after.refs[Full(ref)]))
  {
    HeadFacts("", ref);
    OptionIsNoBranch(git, Full(ref));
    assert Full(Full(ref)) == Full(ref);
  }

  // ---------------------------------------------------------------- pull requests

  /** Every open pull request of the repository whose head branch exists records where that branch is. */
  predicate HeadsFollow(w: World, repo: nat) {
    forall id :: id in w.pulls && w.pulls[id].open && w.pulls[id].repo == repo && Head(w.pulls[id].headRef) in w.refs
      ==> w.pulls[id].headSha == w.refs[Head(w.pulls[id].headRef)]
  }

  lemma RecordHeadsFollow(w: World, moved: map<string, string>, written: string, ref: string, repo: nat,
                          sha: Option<string>, user: nat)
    requires HeadsFollow(w, repo) && OnlyAt(w.refs, moved, written) && (written == ref || written == Full(ref))
    requires BranchName(ref).Some? ==> HeadIs(moved, BranchName(ref).value, sha)
    requires OneRowIfBranch(w.rows, repo, ref)
    ensures HeadsFollow(Record(w.(refs := moved), repo, ref, sha, user).0, repo)
  {
    var after := Record(w.(refs := moved), repo, ref, sha, user).0;
    forall id | id in after.pulls && after.pulls[id].open && after.pulls[id].repo == repo &&
      Head(after.pulls[id].headRef) in moved
      ensures after.pulls[id].headSha == moved[Head(after.pulls[id].headRef)]
    {
      if BranchName(ref) != Some(after.pulls[id].headRef) {
        NotAHead(ref, after.pulls[id].headRef);
        assert after.pulls[id] == w.pulls[id];
      }
    }
  }

  lemma UnrecordedHeadsFollow(w: World, moved: map<string, string>, written: string, repo: nat)
    requires HeadsFollow(w, repo) && OnlyAt(w.refs, moved, written)
    requires StartsWith(written, HEADS) ==> SameAt(w.refs, moved, written)
    ensures HeadsFollow(w.(refs := moved), repo)
  {
    forall name: string ensures SameAt(w.refs, moved, Head(name)) {
      HeadFacts(name, written);
    }
    forall id | id in w.pulls && w.pulls[id].open && w.pulls[id].repo == repo && Head(w.pulls[id].headRef) in moved
      ensures w.pulls[id].headSha == moved[Head(w.pulls[id].headRef)]
    {
      assert SameAt(w.refs, moved, Head(w.pulls[id].headRef));
    }
  }

  /** A faithful request moves the recorded heads of the pull requests with the branch. */
  lemma StepMovesPullHeads(w: World, git: Git, repo: nat, request: Request, user: nat)
    requires Agrees(w, repo) && HeadsFollow(w, repo) && Faithful(w, git, request)
    ensures HeadsFollow(Step(w, git, repo, request, user).0, repo)
  {
    RefusedChangesNothing(w, git, repo, request, user);
    if Step(w, git, repo, request, user).1 == Done {
      FaithfulMovesPullHeads(w, git, repo, request, user);
    }
  }

  lemma FaithfulMovesPullHeads(w: World, git: Git, repo: nat, request: Request, user: nat)
    requires Agrees(w, repo) && HeadsFollow(w, repo) && Faithful(w, git, request)
    requires Step(w, git, repo, request, user).1 == Done
    ensures HeadsFollow(Step(w, git, repo, request, user).0, repo)
  {
    DoneIsRecorded(w, git, repo, request, user);
    var order, target := RequestOrder(w, git, request).value, Target(request);
    var moved := Carried(w.refs, order);
    CarriedIdleIff(w.refs, order);
    if BranchName(target).None? {
      HeadFacts("", target);
      if !request.Create? { assert Full(target) == target && !StartsWith(order.target, HEADS); }
      UnrecordedHeadsFollow(w, moved, order.target, repo);
    } else {
      var name := BranchName(target).value;
      HeadFacts(name, target);
      if !StartsWith(target, REFS) { assert order.target != Head(name); }
      RecordHeadsFollow(w, moved, order.target, target, repo, RecordedSha(request), user);
    }
  }

  /** A successful write of a branch is a push to every open pull request from it, and to no other. */
  lemma WriteIsRecordedAsPush(w: World, git: Git, repo: nat, request: Request, user: nat)
    requires Step(w, git, repo, request, user).1 == Done
    ensures var after := Step(w, git, repo, request, user).0;
            && after.pulls.Keys == w.pulls.Keys
            && forall id :: id in w.pulls ==>
                 if !request.Delete? && w.pulls[id].open && w.pulls[id].repo == repo &&
                   BranchName(request.ref) == Some(w.pulls[id].headRef)
                 then after.pulls[id] == w.pulls[id].(headSha := request.sha, lastPushBy := Some(user))
                 else after.pulls[id] == w.pulls[id]
  {
    DoneIsRecorded(w, git, repo, request, user);
  }

  // ---------------------------------------------------------------- protection and other repositories

  /** The branch has a protected row that forbids updates and deletion. */
  ghost predicate Sealed(w: World, repo: nat, name: string) {
    && Sound(w.rows, w.nextId, repo)
    && exists id :: id in Named(w.rows, repo, name) && SealedRow(w.rows[id])
  }

  predicate SealedRow(row: Row) {
    row.protection.Some? && row.protection.value.locked && !row.protection.value.allowDeletions
  }

  lemma RecordKeepsProtection(rows: map<nat, Row>, nextId: nat, repo: nat, name: string, sha: Option<string>,
                              other: string, id: nat)
    requires Sound(rows, nextId, repo) && id in Named(rows, repo, other)
    requires other != name || sha.Some?
    ensures var (after, _) := Recorded(rows, nextId, repo, name, sha);
            id in Named(after, repo, other) && after[id].protection == rows[id].protection
  {
  }

  /** Requests other than a create do nothing to a sealed branch. */
  lemma SealIsRespected(w: World, git: Git, repo: nat, name: string, request: Request, user: nat)
    requires Sealed(w, repo, name) && !request.Create? && BranchName(request.ref) == Some(name)
    ensures Step(w, git, repo, request, user).0 == w
  {
    HeadFacts(name, request.ref);
    HeadFacts(name, Full(request.ref));
    assert Full(Full(request.ref)) == Full(request.ref);
    var id :| id in Named(w.rows, repo, name) && SealedRow(w.rows[id]);
    if request.Update? {
      assert Guarded(w.rows, repo, Full(request.ref), (p: Protection) => p.locked);
    } else {
      assert Guarded(w.rows, repo, Full(request.ref), (p: Protection) => !p.allowDeletions);
    }
  }

  lemma RecordKeepsSeal(w: World, moved: map<string, string>, repo: nat, name: string, ref: string,
                        sha: Option<string>, user: nat)
    requires Sealed(w, repo, name) && (BranchName(ref) == Some(name) ==> sha.Some?)
    ensures Sealed(Record(w.(refs := moved), repo, ref, sha, user).0, repo, name)
  {
    var id :| id in Named(w.rows, repo, name) && SealedRow(w.rows[id]);
    if BranchName(ref).Some? {
      var other := BranchName(ref).value;
      RecordedIsSound(w.rows, w.nextId, repo, other, sha);
      RecordKeepsProtection(w.rows, w.nextId, repo, other, sha, name, id);
    }
  }

  predicate SameHead(w: World, after: World, name: string) {
    && (Head(name) in w.refs <==> Head(name) in after.refs)
    && (Head(name) in w.refs ==> after.refs[Head(name)] == w.refs[Head(name)])
  }

  /** A create whose order git carries out on the branch: by its ref, by HEAD, or by way of an option; not idly. */
  predicate CreatesOver(w: World, git: Git, request: Request, name: string) {
    && request.Create? && request.ref != "" && request.sha != ""
    && RequestOrder(w, git, request).Some?
    && RequestOrder(w, git, request).value.target == Head(name)
    && !Idle(w.refs, RequestOrder(w, git, request).value)
  }

  lemma CreateMovesSealedIff(w: World, git: Git, repo: nat, name: string, ref: string, sha: string, user: nat)
    requires Sealed(w, repo, name)
    ensures var after := DoCreate(w, git, repo, ref, sha, user).0;
            && Sealed(after, repo, name)
            && (SameHead(w, after, name) <==> !CreatesOver(w, git, Create(ref, sha), name))
  {
    var order := Ordered(w.head, git, ref, sha);
    if ref != "" && sha != "" && order.Some? {
      CarriedIdleIff(w.refs, order.value);
      RecordKeepsSeal(w, Carried(w.refs, order.value), repo, name, ref, Some(sha), user);
    }
  }

  /**
  A sealed branch stays sealed, and it stays where it is exactly when the request is not a create over
  it: updates and deletions respect its protection, and create does not look.
  */
  lemma SealedBranchStaysIff(w: World, git: Git, repo: nat, name: string, request: Request, user: nat)
    requires Sealed(w, repo, name)
    ensures var after := Step(w, git, repo, request, user).0;
            && Sealed(after, repo, name)
            && (SameHead(w, after, name) <==> !CreatesOver(w, git, request, name))
  {
    if request.Create? {
      CreateMovesSealedIff(w, git, repo, name, request.ref, request.sha, user);
    } else if BranchName(request.ref) == Some(name) {
      SealIsRespected(w, git, repo, name, request, user);
    } else {
      OtherBranchMoves(w, git, repo, name, request, user);
    }
  }

  lemma OtherBranchMoves(w: World, git: Git, repo: nat, name: string, request: Request, user: nat)
    requires Sealed(w, repo, name) && !request.Create? && BranchName(request.ref) != Some(name)
    ensures var after := Step(w, git, repo, request, user).0;
            Sealed(after, repo, name) && SameHead(w, after, name)
  {
    var full, order := Full(request.ref), RequestOrder(w, git, request);
    HeadFacts(name, request.ref);
    HeadFacts(name, full);
    OptionIsNoBranch(git, full);
    assert Full(full) == full;
    StepShape(w, git, repo, request, user);
    if order.Some? {
      assert order.value.target == full != Head(name);
      RecordKeepsSeal(w, Carried(w.refs, order.value), repo, name, full, RecordedSha(request), user);
    }
  }

  // ---------------------------------------------------------------- what creates can do

  /** A git that takes every text for a commit and every name for a ref. */
  function LooseGit(): Git {
    Git(text => Some(text), (tip: string, sha: string) => true, ref => true, ref => true, text => text == "-d")
  }

  /** Branch main, the default branch, locked at commit a, and recorded so. */
  function LockedMain(): World {
    World(map[Head("main") := "a"], Head("main"), map[0 := Row(0, "main", "a", Some(Protection(true, false, false)))],
          1, map[])
  }

  lemma LockedMainIsSealed()
    ensures Sealed(LockedMain(), 0, "main") && Agrees(LockedMain(), 0)
    ensures forall sha, force :: DoUpdate(LockedMain(), LooseGit(), 0, Head("main"), sha, force, 7).1 == LockedBranch
    ensures DoDelete(LockedMain(), 0, Head("main"), 7).1 == NotDeletable
  {
    var w := LockedMain();
    assert 0 in Named(w.rows, 0, "main") && SealedRow(w.rows[0]);
    forall name: string | Head(name) in w.refs ensures name == "main" {
      assert Head(name)[|HEADS|..] == name && Head("main")[|HEADS|..] == "main";
    }
    HeadFacts("main", Head("main"));
    assert Guarded(w.rows, 0, Head("main"), (p: Protection) => p.locked);
    assert Guarded(w.rows, 0, Head("main"), (p: Protection) => !p.allowDeletions);
  }

  /** Naming the ref of a locked branch in a create moves it. */
  lemma CreateMovesLockedBranch()
    ensures var (after, result) := DoCreate(LockedMain(), LooseGit(), 0, Head("main"), "b", 7);
            result == Done && Head("main") in after.refs && after.refs[Head("main")] == "b"
  {
    LockedMainIsSealed();
    OptionIsNoBranch(LooseGit(), Head("main"));
    HeadFacts("main", Head("main"));
    assert "b"[0] != '-';
  }

  /** Naming HEAD moves the default branch, locked or not, and leaves its row behind. */
  lemma CreateOfHeadMovesLockedBranch()
    ensures var (after, result) := DoCreate(LockedMain(), LooseGit(), 0, HEAD, "b", 7);
            && result == Done && Head("main") in after.refs && after.refs[Head("main")] == "b"
            && after.rows == LockedMain().rows && !Agrees(after, 0)
  {
    LockedMainIsSealed();
    OptionIsNoBranch(LooseGit(), HEAD);
    assert HEAD[0] == 'H' && "b"[0] == 'b';
    StepKeepsAgreementIff(LockedMain(), LooseGit(), 0, Create(HEAD, "b"), 7);
    HeadFacts("main", Head("main"));
  }

  /** A null name in a create deletes the branch, whether or not its protection allows that, and leaves a row. */
  lemma NullNameDeletesLockedBranch()
    ensures var (after, result) := DoCreate(LockedMain(), LooseGit(), 0, Head("main"), NULL_NAME, 7);
            && result == Done && Head("main") !in after.refs
            && Named(after.rows, 0, "main") != {} && !Agrees(after, 0)
  {
    LockedMainIsSealed();
    HeadFacts("main", Head("main"));
    OptionIsNoBranch(LooseGit(), Head("main"));
    StepKeepsAgreementIff(LockedMain(), LooseGit(), 0, Create(Head("main"), NULL_NAME), 7);
    RecordedRows(LockedMain().rows, 1, 0, "main", Some(NULL_NAME));
  }

  // ---------------------------------------------------------------- runs

  /** A request, and how git reads texts at the time. */
  datatype Call = Call(git: Git, request: Request, user: nat)

  function After(w: World, repo: nat, call: Call): World {
    Step(w, call.git, repo, call.request, call.user).0
  }

  function Run(w: World, repo: nat, calls: seq<Call>): World
    decreases |calls|
  {
    if |calls| == 0 then w else Run(After(w, repo, calls[0]), repo, calls[1..])
  }

  /** Along the run, no request is a create over the branch. */
  predicate NeverCreatedOver(w: World, repo: nat, name: string, calls: seq<Call>)
    decreases |calls|
  {
    |calls| > 0 ==>
      && !CreatesOver(w, calls[0].git, calls[0].request, name)
      && NeverCreatedOver(After(w, repo, calls[0]), repo, name, calls[1..])
  }

  /** Along the run, no request moves the branch. */
  predicate NeverMoves(w: World, repo: nat, name: string, calls: seq<Call>)
    decreases |calls|
  {
    |calls| > 0 ==>
      && SameHead(w, After(w, repo, calls[0]), name)
      && NeverMoves(After(w, repo, calls[0]), repo, name, calls[1..])
  }

  /** Over any run a sealed branch stays sealed, and it never moves exactly when it is never created over. */
  lemma {:induction false} SealedBranchStaysOverRunsIff(w: World, repo: nat, name: string, calls: seq<Call>)
    requires Sealed(w, repo, name)
    ensures Sealed(Run(w, repo, calls), repo, name)
    ensures NeverMoves(w, repo, name, calls) <==> NeverCreatedOver(w, repo, name, calls)
    ensures NeverCreatedOver(w, repo, name, calls) ==> SameHead(w, Run(w, repo, calls), name)
    decreases |calls|
  {
    if |calls| > 0 {
      SealedBranchStaysIff(w, calls[0].git, repo, name, calls[0].request, calls[0].user);
      SealedBranchStaysOverRunsIff(After(w, repo, calls[0]), repo, name, calls[1..]);
    }
  }

  predicate OthersKept(w: World, after: World, repo: nat) {
    && (forall id :: id in w.rows && w.rows[id].repo != repo ==> id in after.rows && after.rows[id] == w.rows[id])
    && (forall id :: id in after.rows && after.rows[id].repo != repo ==> id in w.rows)
    && after.pulls.Keys == w.pulls.Keys
    && (forall id :: id in w.pulls && w.pulls[id].repo != repo ==> after.pulls[id] == w.pulls[id])
  }

  /** Requests on one repository leave the rows and the pull requests of the others alone. */
  lemma OthersUntouched(w: World, git: Git, repo: nat, request: Request, user: nat)
    requires forall id :: id in w.rows ==> id < w.nextId
    ensures OthersKept(w, Step(w, git, repo, request, user).0, repo)
  {
    StepShape(w, git, repo, request, user);
    var order := RequestOrder(w, git, request);
    if order.Some? {
      RecordKeepsOthers(w.(refs := Carried(w.refs, order.value)), repo, Target(request), RecordedSha(request), user);
    }
  }

  lemma RecordKeepsOthers(w: World, repo: nat, ref: string, sha: Option<string>, user: nat)
    requires forall id :: id in w.rows ==> id < w.nextId
    ensures OthersKept(w, Record(w, repo, ref, sha, user).0, repo)
  {
  }
}
