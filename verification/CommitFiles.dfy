/**
`commit_files` as one call: an index is read from the expected head, the deletions and additions
are applied to it one by one, the commit is stored, and the ref moves only if nobody moved it in
the meantime.  What other processes do to the repository before the swap is the `rivals` argument.
*/
module CommitFiles {
  import opened Wrappers
  import opened CommitGraph
  import opened RefRaces

  /** Refs and objects as other processes leave them while this call builds its commit. */
  datatype Rivals = Rivals(commits: seq<Commit>, refs: map<Branch, Sha>)

  datatype Outcome =
    | Committed(commit: Sha)
    | Stale(actual: Option<Sha>, expected: Sha)
    | Missing(path: Path)

  function Lookup(refs: map<Branch, Sha>, branch: Branch): Option<Sha> {
    if branch in refs then Some(refs[branch]) else None
  }

  class Repository {
    var graph: Graph
    var refs: map<Branch, Sha>

    ghost predicate Valid()
      reads this
    {
      WellFormed(graph) && forall b :: b in refs ==> refs[b] < |graph|
    }

    constructor (graph: Graph, refs: map<Branch, Sha>)
      requires WellFormed(graph) && forall b :: b in refs ==> refs[b] < |graph|
      ensures Valid() && this.graph == graph && this.refs == refs
    {
      this.graph, this.refs := graph, refs;
    }

    /** Other processes only add objects; their refs name objects that exist. */
    ghost predicate Plausible(rivals: Rivals)
      reads this
    {
      && WellFormed(graph + rivals.commits)
      && forall b :: b in rivals.refs ==> rivals.refs[b] < |graph| + |rivals.commits|
    }

    method BuildTree(expected: Sha, deletions: seq<Path>, additions: seq<(Path, Blob)>)
      returns (tree: Tree, missing: Option<Path>)
      requires Valid() && expected < |graph|
      ensures missing == FirstMissing(graph[expected].tree, deletions)
      ensures missing == None ==> tree == Overlay(graph[expected].tree, deletions, additions)
    {
      ghost var start := graph[expected].tree;
      tree := graph[expected].tree;
      for k := 0 to |deletions|
        invariant tree == start
        invariant FirstMissing(start, deletions) == FirstMissing(start, deletions[k..])
      {
        assert deletions[k..][0] == deletions[k] && deletions[k..][1..] == deletions[k + 1..];
        if deletions[k] !in tree {
          return tree, Some(deletions[k]);
        }
      }
      for k := 0 to |deletions|
        invariant tree == Without(start, deletions[..k])
      {
        tree := tree - {deletions[k]};
        assert deletions[..k + 1] == deletions[..k] + [deletions[k]];
        assert tree == Without(start, deletions[..k + 1]);
      }
      assert deletions[..|deletions|] == deletions;
      assert additions[0..] == additions;
      for k := 0 to |additions|
        invariant WithFiles(tree, additions[k..]) == Overlay(start, deletions, additions)
      {
        assert additions[k..][0] == additions[k] && additions[k..][1..] == additions[k + 1..];
        tree := tree[additions[k].0 := additions[k].1];
      }
      assert additions[|additions|..] == [];
      missing := None;
    }

    /**
    On return the branch names a commit whose parent is the expected head and whose tree is that
    head's with the changes applied; a call that raises leaves every ref as the other processes
    left it.
    */
    method Commit(branch: Branch, change: Change, rivals: Rivals) returns (outcome: Outcome)
      requires Valid() && Plausible(rivals)
      modifies this
      ensures Valid()
      ensures outcome.Committed? <==>
                && Lookup(old(refs), branch) == Some(change.expected)
                && AllIn(old(graph)[change.expected].tree, change.deletions)
                && Lookup(rivals.refs, branch) == Some(change.expected)
      ensures outcome.Committed? ==>
                var n := outcome.commit;
                && refs == rivals.refs[branch := n]
                && n < |graph| && Extends(old(graph), graph) && graph[n] == NewCommit(old(graph), change)
                && graph[n].parents == [change.expected]
                && graph[n].tree == Overlay(old(graph)[change.expected].tree, change.deletions, change.additions)
                && graph[n].message == change.message && graph[n].author == change.author
                && graph[n].stamp == change.stamp
      ensures !outcome.Committed? ==> refs == rivals.refs || (refs == old(refs) && graph == old(graph))
      ensures outcome.Missing? <==>
                && Lookup(old(refs), branch) == Some(change.expected)
                && !AllIn(old(graph)[change.expected].tree, change.deletions)
      ensures outcome.Missing? ==>
                && refs == old(refs)
                && IsFirstMissing(old(graph)[change.expected].tree, change.deletions, outcome.path)
      ensures outcome.Stale? ==>
                && outcome.expected == change.expected
                && outcome.actual == Lookup(refs, branch) && outcome.actual != Some(change.expected)
    {
      var actual := Lookup(refs, branch);
      if actual != Some(change.expected) {
        return Stale(actual, change.expected);
      }
      var tree, missing := BuildTree(change.expected, change.deletions, change.additions);
      FirstMissingIs(graph[change.expected].tree, change.deletions);
      if missing.Some? {
        return Missing(missing.value);
      }
      ghost var head := graph[change.expected];
      refs := rivals.refs;
      graph := graph + rivals.commits;
      assert graph[change.expected] == head;
      var commit := CommitGraph.Commit(tree, [change.expected], change.message, change.author, change.stamp);
      var (stored, name) := Store(graph, commit);
      assert stored[..|old(graph)|] == stored[..|graph|][..|old(graph)|] == old(graph);
      graph := stored;
      if Lookup(refs, branch) != Some(change.expected) {
        return Stale(Lookup(refs, branch), change.expected);
      }
      refs := refs[branch := name];
      return Committed(name);
    }
  }
}
