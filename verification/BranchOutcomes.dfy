/**
What each ref request answers and leaves, in the words of the request, the rows and git: which of a row's
three flags forbids what, when a write succeeds, and what it writes.
*/
module BranchOutcomes {
  import opened Wrappers
  import opened BranchMirror

  // ---------------------------------------------------------------- rows of one branch

  predicate AtMostOneRow(w: World, repo: nat, name: string) {
    forall i, j :: i in w.rows && j in w.rows && RowOf(w, repo, name, i) && RowOf(w, repo, name, j) ==> i == j
  }

  predicate RowOf(w: World, repo: nat, name: string, id: nat)
    requires id in w.rows
  {
    w.rows[id].repo == repo && w.rows[id].name == name
  }

  predicate Locked(w: World, repo: nat, name: string) {
    exists id :: id in w.rows && RowOf(w, repo, name, id) && w.rows[id].protection.Some?
                 && w.rows[id].protection.value.locked
  }

  predicate ForcingForbidden(w: World, repo: nat, name: string) {
    exists id :: id in w.rows && RowOf(w, repo, name, id) && w.rows[id].protection.Some?
                 && !w.rows[id].protection.value.allowForcePushes
  }

  predicate DeletionForbidden(w: World, repo: nat, name: string) {
    exists id :: id in w.rows && RowOf(w, repo, name, id) && w.rows[id].protection.Some?
                 && !w.rows[id].protection.value.allowDeletions
  }

  lemma RowQuestions(w: World, repo: nat, ref: string, name: string)
    requires Full(ref) == Head(name)
    ensures OneRowIfBranch(w.rows, repo, ref) <==> AtMostOneRow(w, repo, name)
    ensures Guarded(w.rows, repo, ref, (p: Protection) => p.locked) <==> Locked(w, repo, name)
    ensures Guarded(w.rows, repo, ref, (p: Protection) => !p.allowForcePushes) <==> ForcingForbidden(w, repo, name)
    ensures Guarded(w.rows, repo, ref, (p: Protection) => !p.allowDeletions) <==> DeletionForbidden(w, repo, name)
  {
    HeadFacts(name, ref);
    assert forall id :: id in Named(w.rows, repo, name) <==> id in w.rows && RowOf(w, repo, name, id);
  }

  /** The two spellings of a branch that the routes take, and one that is no branch. */
  lemma Spellings(name: string)
    ensures Full("refs/heads/" + name) == "refs/heads/" + name == Head(name)
    ensures Full("heads/" + name) == "refs/heads/" + name
    ensures Full("tags/" + name) == "refs/tags/" + name && BranchName("tags/" + name) == None
  {
    HeadFacts(name, Head(name));
    assert ("heads/" + name)[0] == 'h' && ("tags/" + name)[0] == 't' && REFS[0] == 'r';
    assert REFS + ("heads/" + name) == "refs/heads/" + name;
    assert REFS + ("tags/" + name) == "refs/tags/" + name;
    assert ("refs/tags/" + name)[5] == 't' && HEADS[5] == 'h';
  }

  // ---------------------------------------------------------------- what a record leaves

  /**
  The rows after a branch was recorded at a commit: its row moved, kept otherwise, or a new one without
  protection under an id that was free.
  */
  predicate RecordedAt(w: World, after: World, repo: nat, name: string, sha: string) {
    w.nextId !in w.rows ==>
    && (forall id :: id in w.rows ==>
          && id in after.rows
          && after.rows[id] == if RowOf(w, repo, name, id) then w.rows[id].(sha := sha) else w.rows[id])
    && (forall id :: id in after.rows && id !in w.rows ==>
          id == w.nextId && after.rows[id] == Row(repo, name, sha, None))
    && (w.nextId in after.rows <==> forall id :: id in w.rows ==> !RowOf(w, repo, name, id))
  }

  /** And after it was recorded as gone: its row is gone, and no other. */
  ghost predicate RecordedGone(w: World, after: World, repo: nat, name: string) {
    && (forall id :: id in after.rows <==> id in w.rows && !RowOf(w, repo, name, id))
    && forall id :: id in after.rows ==> after.rows[id] == w.rows[id]
  }

  lemma RecordOutcome(w: World, repo: nat, ref: string, name: string, sha: Option<string>, user: nat)
    requires Full(ref) == Head(name)
    ensures var (after, result) := Record(w, repo, ref, sha, user);
            && after.refs == w.refs && after.head == w.head
            && (if !AtMostOneRow(w, repo, name) then result == ManyRows && after == w
                else
                  && result == Done
                  && if sha.None? then RecordedGone(w, after, repo, name)
                     else RecordedAt(w, after, repo, name, sha.value))
  {
    RowQuestions(w, repo, ref, name);
    HeadFacts(name, ref);
    assert forall id :: id in Named(w.rows, repo, name) <==> id in w.rows && RowOf(w, repo, name, id);
  }

  // ---------------------------------------------------------------- deletion

  /**
  A branch is deleted exactly when it is there, has one row at most, and no row of it forbids deletion;
  that it is locked is no obstacle.  A ref that is no branch is deleted when it is there.
  */
  lemma DeleteOutcome(w: World, repo: nat, ref: string, name: string, user: nat)
    requires Full(ref) == Head(name)
    ensures var (after, result) := DoDelete(w, repo, ref, user);
            && (result == Done <==>
                  Head(name) in w.refs && AtMostOneRow(w, repo, name) && !DeletionForbidden(w, repo, name))
            && (result == NoSuchRef <==> Head(name) !in w.refs)
            && (result == NotDeletable <==>
                  Head(name) in w.refs && AtMostOneRow(w, repo, name) && DeletionForbidden(w, repo, name))
            && (result == Done ==> after.refs == w.refs - {Head(name)} && RecordedGone(w, after, repo, name))
            && (result != Done ==> after == w)
  {
    HeadFacts(name, ref);
    HeadFacts(name, Full(ref));
    RowQuestions(w, repo, Full(ref), name);
    RecordOutcome(w.(refs := w.refs - {Full(ref)}), repo, Full(ref), name, None, user);
  }

  // ---------------------------------------------------------------- updates

  /** A text that names a commit to git, rather than the null name or an option. */
  predicate NamesCommit(git: Git, sha: string) {
    sha != NULL_NAME && !IsOption(git, sha) && git.resolve(sha).Some?
  }

  predicate Asks(git: Git, sha: string) {
    sha != NULL_NAME && !IsOption(git, sha)
  }

  /** An update goes through protection: the branch is not locked, and if forced may be. */
  predicate MayUpdate(w: World, repo: nat, name: string, force: bool) {
    AtMostOneRow(w, repo, name) && !Locked(w, repo, name) && (force ==> !ForcingForbidden(w, repo, name))
  }

  /** Unforced, an existing branch only goes to a commit that descends from its tip. */
  predicate GoesForward(w: World, git: Git, name: string, sha: string, force: bool) {
    force || Head(name) !in w.refs
    || (NamesCommit(git, sha) && git.isAncestor(w.refs[Head(name)], git.resolve(sha).value))
  }

  /**
  An update answers with the first of these that holds: several rows, locked, force forbidden, not a fast
  forward, refused by git; and else it is done.
  */
  lemma UpdateAnswer(w: World, git: Git, repo: nat, ref: string, name: string, sha: string, force: bool, user: nat)
    requires Full(ref) == Head(name)
    ensures var (after, result) := DoUpdate(w, git, repo, ref, sha, force, user);
            && (result == ManyRows <==> !AtMostOneRow(w, repo, name))
            && (result == LockedBranch <==> AtMostOneRow(w, repo, name) && Locked(w, repo, name))
            && (result == ForceNotAllowed <==>
                  && AtMostOneRow(w, repo, name) && !Locked(w, repo, name) && force
                  && ForcingForbidden(w, repo, name))
            && (result == NotFastForward <==>
                  MayUpdate(w, repo, name, force) && !GoesForward(w, git, name, sha, force))
            && (result != Done ==> after == w)
  {
    HeadFacts(name, ref);
    HeadFacts(name, Full(ref));
    RowQuestions(w, repo, Full(ref), name);
    RowQuestions(w.(refs := map[]), repo, Full(ref), name);
  }

  /** An update of a branch to a commit is done exactly when nothing forbids it, and moves the branch and its row. */
  lemma UpdateOutcome(w: World, git: Git, repo: nat, ref: string, name: string, sha: string, force: bool, user: nat)
    requires Full(ref) == Head(name) && Asks(git, sha)
    ensures var (after, result) := DoUpdate(w, git, repo, ref, sha, force, user);
            && (result == Done <==>
                  && MayUpdate(w, repo, name, force) && GoesForward(w, git, name, sha, force)
                  && git.accepts(Head(name)) && NamesCommit(git, sha))
            && (result == Done ==>
                  && after.refs == w.refs[Head(name) := git.resolve(sha).value]
                  && RecordedAt(w, after, repo, name, sha))
  {
    HeadFacts(name, ref);
    HeadFacts(name, Full(ref));
    OptionIsNoBranch(git, Full(ref));
    RowQuestions(w, repo, Full(ref), name);
    if NamesCommit(git, sha) {
      var moved := w.(refs := w.refs[Head(name) := git.resolve(sha).value]);
      RecordOutcome(moved, repo, Full(ref), name, Some(sha), user);
    }
  }

  // ---------------------------------------------------------------- creation

  /** A create of a branch by its full name looks at no flag: git alone decides, and one row or none. */
  lemma CreateOutcome(w: World, git: Git, repo: nat, name: string, sha: string, user: nat)
    requires Asks(git, sha)
    ensures var (after, result) := DoCreate(w, git, repo, Head(name), sha, user);
            && (result == Done <==>
                  sha != "" && git.accepts(Head(name)) && NamesCommit(git, sha) && AtMostOneRow(w, repo, name))
            && (result == BadRequest <==> sha == "")
            && (result == GitFailed <==> sha != "" && !(git.accepts(Head(name)) && NamesCommit(git, sha)))
            && (result == Done || result == ManyRows ==>
                  after.refs == w.refs[Head(name) := git.resolve(sha).value])
            && (result == Done ==> RecordedAt(w, after, repo, name, sha))
            && (result != Done ==> after.rows == w.rows && after.pulls == w.pulls)
  {
    HeadFacts(name, Head(name));
    OptionIsNoBranch(git, Head(name));
    RowQuestions(w, repo, Head(name), name);
    if NamesCommit(git, sha) {
      var moved := w.(refs := w.refs[Head(name) := git.resolve(sha).value]);
      RecordOutcome(moved, repo, Head(name), name, Some(sha), user);
    }
  }

  // ---------------------------------------------------------------- the null name, and refs that are no branch

  /**
  The null name, or an option, in place of a commit: the branch goes, if nothing forbids the update and it
  is not compared.
  */
  lemma NullNameOutcome(w: World, git: Git, repo: nat, ref: string, name: string, sha: string, force: bool, user: nat)
    requires Full(ref) == Head(name) && !Asks(git, sha)
    ensures var (after, result) := DoUpdate(w, git, repo, ref, sha, force, user);
            && (result == Done <==>
                  MayUpdate(w, repo, name, force) && (force || Head(name) !in w.refs) && git.removes(Head(name)))
            && (result == Done ==> after.refs == w.refs - {Head(name)} && RecordedAt(w, after, repo, name, sha))
    ensures var (after, result) := DoCreate(w, git, repo, Head(name), sha, user);
            && (result == Done <==> sha != "" && git.removes(Head(name)) && AtMostOneRow(w, repo, name))
            && (result == Done ==> after.refs == w.refs - {Head(name)} && RecordedAt(w, after, repo, name, sha))
  {
    HeadFacts(name, ref);
    HeadFacts(name, Full(ref));
    HeadFacts(name, Head(name));
    OptionIsNoBranch(git, Head(name));
    RowQuestions(w, repo, Full(ref), name);
    RecordOutcome(w.(refs := w.refs - {Head(name)}), repo, Full(ref), name, Some(sha), user);
  }

  /** Of a ref that is no branch only git is asked, and no row or pull request changes. */
  lemma OtherRefOutcome(w: World, git: Git, repo: nat, ref: string, sha: string, force: bool, user: nat)
    requires BranchName(ref).None?
    ensures var (after, result) := DoDelete(w, repo, ref, user);
            && result == (if Full(ref) in w.refs then Done else NoSuchRef) && after == w.(refs := w.refs - {Full(ref)})
    ensures Asks(git, sha) ==>
              var (after, result) := DoUpdate(w, git, repo, ref, sha, force, user);
              && (result == Done <==>
                    && git.accepts(Full(ref)) && NamesCommit(git, sha)
                    && (force || Full(ref) !in w.refs || git.isAncestor(w.refs[Full(ref)], git.resolve(sha).value)))
              && (result == Done ==> after == w.(refs := w.refs[Full(ref) := git.resolve(sha).value]))
  {
    HeadFacts("", ref);
    OptionIsNoBranch(git, Full(ref));
    assert Full(Full(ref)) == Full(ref);
    assert Full(ref) !in w.refs ==> w.refs - {Full(ref)} == w.refs;
  }
}
