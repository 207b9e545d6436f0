/** The ref routes as they run on the refs of a repository and the shared tables, and the sync after a push. */
module BranchStore {
  import opened Wrappers
  import opened BranchMirror
  import opened BranchOutcomes
  import opened BranchSync

  /** Recording a change of a branch that has a row changes that row, or drops it. */
  lemma RecordedOne(rows: map<nat, Row>, nextId: nat, repo: nat, name: string, sha: Option<string>, id: nat)
    requires id in Named(rows, repo, name) && OneRow(rows, repo, name)
    ensures Recorded(rows, nextId, repo, name, sha)
              == (if sha.None? then rows - {id} else rows[id := rows[id].(sha := sha.value)], nextId)
  {
    var after := Recorded(rows, nextId, repo, name, sha).0;
    forall other | other in rows ensures Is(rows[other], repo, name) <==> other == id {
      if Is(rows[other], repo, name) { assert other in Named(rows, repo, name); }
    }
    if sha.None? {
      assert after == rows - {id};
    } else {
      assert after == rows[id := rows[id].(sha := sha.value)];
    }
  }

  class Store {
    const repo: nat
    var refs: map<string, string>
    var head: string
    var rows: map<nat, Row>
    var nextId: nat
    var pulls: map<nat, Pull>

    ghost function State(): World
      reads this
    {
      World(refs, head, rows, nextId, pulls)
    }

    constructor (repo: nat, refs: map<string, string>, head: string, rows: map<nat, Row>, nextId: nat,
                 pulls: map<nat, Pull>)
      ensures this.repo == repo && State() == World(refs, head, rows, nextId, pulls)
    {
      this.repo, this.refs, this.head, this.rows := repo, refs, head, rows;
      this.nextId, this.pulls := nextId, pulls;
    }

    method RecordBranchChange(ref: string, sha: Option<string>, user: nat) returns (result: Result)
      modifies this
      ensures (State(), result) == Record(old(State()), repo, ref, sha, user)
    {
      var name := BranchName(ref);
      if name.None? { return Done; }
      var found := Named(rows, repo, name.value);
      if exists i, j :: i in found && j in found && i != j { return ManyRows; }
      if found == {} {
        if sha.Some? {
          rows := rows[nextId := Row(repo, name.value, sha.value, None)];
          nextId := nextId + 1;
        } else {
          assert forall id :: id in rows && Is(rows[id], repo, name.value) ==> id in found;
          assert Recorded(rows, nextId, repo, name.value, None).0 == rows;
        }
      } else {
        var id :| id in found;
        RecordedOne(rows, nextId, repo, name.value, sha, id);
        if sha.None? {
          rows := rows - {id};
        } else {
          rows := rows[id := rows[id].(sha := sha.value)];
        }
      }
      assert rows == Recorded(old(rows), old(nextId), repo, name.value, sha).0;
      if sha.Some? {
        MovePullHeads(name.value, sha.value, user);
      }
      result := Done;
    }

    method MovePullHeads(name: string, sha: string, user: nat)
      modifies this`pulls
      ensures pulls == Pushed(old(pulls), repo, name, Some(sha), user)
    {
      var left := set id | id in pulls && Follows(pulls[id], repo, name);
      while left != {}
        invariant pulls.Keys == old(pulls).Keys
        invariant forall id :: id in left ==>
                    id in pulls && pulls[id] == old(pulls)[id] && Follows(pulls[id], repo, name)
        invariant forall id :: id in pulls && id !in left ==>
                  pulls[id] == Pushed(old(pulls), repo, name, Some(sha), user)[id]
        decreases left
      {
        var id :| id in left;
        pulls := pulls[id := pulls[id].(headSha := sha, lastPushBy := Some(user))];
        left := left - {id};
      }
    }

    method CreateRef(git: Git, ref: string, sha: string, user: nat) returns (result: Result)
      modifies this
      ensures (State(), result) == Step(old(State()), git, repo, Create(ref, sha), user)
      ensures forall name: string :: ref == Head(name) && Asks(git, sha) ==>
                && (result == Done <==>
                      && sha != "" && git.accepts(ref) && NamesCommit(git, sha)
                      && AtMostOneRow(old(State()), repo, name))
                && (result == Done ==>
                      && refs == old(refs)[ref := git.resolve(sha).value]
                      && RecordedAt(old(State()), State(), repo, name, sha))
    {
      forall name: string | ref == Head(name) && Asks(git, sha) { CreateOutcome(State(), git, repo, name, sha, user); }
      if ref == "" || sha == "" { return BadRequest; }
      var moved := GitUpdateRef(refs, head, git, ref, sha, None);
      if moved.None? { return GitFailed; }
      refs := moved.value;
      result := RecordBranchChange(ref, Some(sha), user);
    }

    method UpdateRef(git: Git, ref: string, sha: string, force: bool, user: nat) returns (result: Result)
      modifies this
      ensures (State(), result) == Step(old(State()), git, repo, Update(ref, sha, force), user)
      ensures forall name: string :: Full(ref) == Head(name) && Asks(git, sha) ==>
                && (result == Done <==>
                      && MayUpdate(old(State()), repo, name, force) && GoesForward(old(State()), git, name, sha, force)
                      && git.accepts(Head(name)) && NamesCommit(git, sha))
                && (result == Done ==>
                      && refs == old(refs)[Head(name) := git.resolve(sha).value]
                      && RecordedAt(old(State()), State(), repo, name, sha))
    {
      forall name: string | Full(ref) == Head(name) && Asks(git, sha) {
        UpdateOutcome(State(), git, repo, ref, name, sha, force, user);
      }
      var full := Full(ref);
      if !OneRowIfBranch(rows, repo, full) { return ManyRows; }
      if Guarded(rows, repo, full, (p: Protection) => p.locked) { return LockedBranch; }
      if force && Guarded(rows, repo, full, (p: Protection) => !p.allowForcePushes) { return ForceNotAllowed; }
      var tip: Option<string> := None;
      if !force {
        if full in refs {
          tip := Some(refs[full]);
          if !FastForward(git, refs[full], sha) { return NotFastForward; }
        }
      }
      var moved := GitUpdateRef(refs, head, git, full, sha, tip);
      if moved.None? { return GitFailed; }
      refs := moved.value;
      result := RecordBranchChange(full, Some(sha), user);
    }

    method DeleteRef(git: Git, ref: string, user: nat) returns (result: Result)
      modifies this
      ensures (State(), result) == Step(old(State()), git, repo, Delete(ref), user)
      ensures forall name: string :: Full(ref) == Head(name) ==>
                && (result == Done <==>
                      && Head(name) in old(refs) && AtMostOneRow(old(State()), repo, name)
                      && !DeletionForbidden(old(State()), repo, name))
                && (result == Done ==>
                      refs == old(refs) - {Head(name)} && RecordedGone(old(State()), State(), repo, name))
    {
      forall name: string | Full(ref) == Head(name) { DeleteOutcome(State(), repo, ref, name, user); }
      var full := Full(ref);
      if full !in refs { return NoSuchRef; }
      if !OneRowIfBranch(rows, repo, full) { return ManyRows; }
      if Guarded(rows, repo, full, (p: Protection) => !p.allowDeletions) { return NotDeletable; }
      refs := refs - {full};
      result := RecordBranchChange(full, None, user);
    }

    ghost function Rows(): Table
      reads this
    {
      Table(rows, nextId)
    }

    /** `order` is the order in which the query returns the repository's rows, `disk` the branches found on disk. */
    method SyncBranches(disk: map<string, string>, order: seq<nat>)
      requires Lists(rows, repo, order) && Bounded(Rows())
      modifies this`rows, this`nextId
      ensures Synced(old(Rows()), Rows(), repo, ByName(old(rows), order), disk)
    {
      ghost var before := Rows();
      var existing := NameRows(order);
      DictionaryOfTable(rows, repo, order);
      var left := disk.Keys;
      assert disk.Keys - left == {};
      while left != {}
        invariant left <= disk.Keys && Bounded(Rows())
        invariant Progress(before, Rows(), repo, existing, disk, disk.Keys - left, {})
        decreases left
      {
        var name :| name in left;
        assert disk.Keys - (left - {name}) == disk.Keys - left + {name};
        SyncOne(name, disk, existing, before, disk.Keys - left);
        left := left - {name};
      }
      assert disk.Keys - left == disk.Keys;
      DeleteGone(disk, existing, before);
    }

    /** One turn of the first loop: a branch on disk that has a row gets its sha, one that has none gets a row. */
    method SyncOne(name: string, disk: map<string, string>, existing: map<string, nat>, ghost before: Table,
                   ghost updated: set<string>)
      requires updated <= disk.Keys && name in disk && name !in updated
      requires Bounded(before) && Bounded(Rows()) && Names(before.rows, repo, existing)
      requires Progress(before, Rows(), repo, existing, disk, updated, {})
      modifies this`rows, this`nextId
      ensures Bounded(Rows()) && Progress(before, Rows(), repo, existing, disk, updated + {name}, {})
    {
      if name in existing {
        UpdateStep(before, Rows(), repo, existing, disk, updated, name);
        WriteIfDifferent(existing[name], disk[name]);
      } else {
        AddStep(before, Rows(), repo, existing, disk, updated, name);
        AddRow(name, disk[name]);
      }
    }

    method AddRow(name: string, sha: string)
      modifies this`rows, this`nextId
      ensures Rows() == Extended(old(Rows()), Row(repo, name, sha, None))
    {
      rows := rows[nextId := Row(repo, name, sha, None)];
      nextId := nextId + 1;
    }

    method WriteIfDifferent(id: nat, sha: string)
      requires id in rows
      modifies this`rows
      ensures Rows() == Rewritten(old(Rows()), id, sha)
    {
      if rows[id].sha != sha {
        rows := rows[id := rows[id].(sha := sha)];
      }
    }

    /** The second loop: rows whose branch is no longer on disk. */
    method DeleteGone(disk: map<string, string>, existing: map<string, nat>, ghost before: Table)
      requires Bounded(before) && Names(before.rows, repo, existing)
      requires Progress(before, Rows(), repo, existing, disk, disk.Keys, {})
      modifies this`rows
      ensures Synced(before, Rows(), repo, existing, disk)
    {
      var left := existing.Keys;
      assert existing.Keys - left == {};
      while left != {}
        invariant left <= existing.Keys
        invariant Progress(before, Rows(), repo, existing, disk, disk.Keys, existing.Keys - left)
        decreases left
      {
        var name :| name in left;
        assert existing.Keys - (left - {name}) == existing.Keys - left + {name};
        DropStep(before, Rows(), repo, existing, disk, existing.Keys - left, name);
        if name !in disk {
          rows := rows - {existing[name]};
        }
        left := left - {name};
      }
      assert existing.Keys - left == existing.Keys;
    }

    /** The dictionary of the repository's rows by name; of two rows of one name it keeps the later. */
    method NameRows(order: seq<nat>) returns (existing: map<string, nat>)
      requires forall i :: 0 <= i < |order| ==> order[i] in rows
      ensures existing == ByName(rows, order)
    {
      existing := map[];
      for i := 0 to |order|
        invariant existing == ByName(rows, order[..i])
      {
        assert order[..i + 1][..i] == order[..i];
        existing := existing[rows[order[i]].name := order[i]];
      }
      assert order[..|order|] == order;
    }
  }
}
