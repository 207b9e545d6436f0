/**
The object store of a bare repository: commits that name their parents, and trees of exact file
paths.  An object name stands for its contents, so storing a commit that is already there gives
its old name back.
*/
module CommitGraph {
  import opened Wrappers

  type Sha = nat
  type Path = string
  type Blob = string
  type Tree = map<Path, Blob>

  datatype Commit = Commit(tree: Tree, parents: seq<Sha>, message: string, author: string, stamp: int)

  /** Commits in the order they were stored; a commit's name is its position. */
  type Graph = seq<Commit>

  predicate WellFormed(g: Graph) {
    forall i, k :: 0 <= i < |g| && 0 <= k < |g[i].parents| ==> g[i].parents[k] < i
  }

  /** What `git merge-base --is-ancestor a b` answers. */
  predicate IsAncestor(g: Graph, a: Sha, b: Sha)
    requires WellFormed(g) && b < |g|
    decreases b
  {
    a == b || exists k :: 0 <= k < |g[b].parents| && IsAncestor(g, a, g[b].parents[k])
  }

  predicate Extends(g: Graph, h: Graph) {
    |g| <= |h| && h[..|g|] == g
  }

  lemma {:induction false} AncestorIsOlder(g: Graph, a: Sha, b: Sha)
    requires WellFormed(g) && b < |g| && IsAncestor(g, a, b)
    ensures a <= b
    decreases b
  {
    if a != b {
      var k :| 0 <= k < |g[b].parents| && IsAncestor(g, a, g[b].parents[k]);
      AncestorIsOlder(g, a, g[b].parents[k]);
    }
  }

  lemma {:induction false} AncestorTransitive(g: Graph, a: Sha, b: Sha, c: Sha)
    requires WellFormed(g) && b < |g| && c < |g| && IsAncestor(g, a, b) && IsAncestor(g, b, c)
    ensures IsAncestor(g, a, c)
    decreases c
  {
    if b != c {
      var k :| 0 <= k < |g[c].parents| && IsAncestor(g, b, g[c].parents[k]);
      AncestorTransitive(g, a, b, g[c].parents[k]);
    }
  }

  /** Storing more commits never changes who descends from whom. */
  lemma {:induction false} AncestorStable(g: Graph, h: Graph, a: Sha, b: Sha)
    requires WellFormed(g) && WellFormed(h) && Extends(g, h) && b < |g|
    ensures IsAncestor(g, a, b) <==> IsAncestor(h, a, b)
    decreases b
  {
    assert h[b] == h[..|g|][b] == g[b];
    forall k | 0 <= k < |g[b].parents| ensures IsAncestor(g, a, g[b].parents[k])
    <==> IsAncestor(h, a, g[b].parents[k]) {
      AncestorStable(g, h, a, g[b].parents[k]);
    }
  }

  function NameOf(g: Graph, c: Commit): (i: nat)
    requires c in g
    ensures i < |g| && g[i] == c
  {
    if g[0] == c then 0 else 1 + NameOf(g[1..], c)
  }

  predicate KnownParents(g: Graph, c: Commit) {
    forall k :: 0 <= k < |c.parents| ==> c.parents[k] < |g|
  }

  /** What `git commit-tree` does to the store: the store that holds the commit, and the commit's name. */
  function Store(g: Graph, c: Commit): (r: (Graph, Sha))
    requires WellFormed(g) && KnownParents(g, c)
    ensures WellFormed(r.0) && Extends(g, r.0)
    ensures r.1 < |r.0| && r.0[r.1] == c
  {
    if c in g then (g, NameOf(g, c))
    else
      assert forall i, k :: 0 <= i < |g + [c]| && 0 <= k < |(g + [c])[i].parents| ==> (g + [c])[i].parents[k] < i by {
        StoredLast(g, c);
      }
      (g + [c], |g|)
  }

  lemma StoredLast(g: Graph, c: Commit)
    requires WellFormed(g) && KnownParents(g, c)
    ensures WellFormed(g + [c])
  {
    var h := g + [c];
    forall i, k | 0 <= i < |h| && 0 <= k < |h[i].parents| ensures h[i].parents[k] < i {
      if i < |g| { assert h[i] == g[i]; }
    }
  }

  // ---------------------------------------------------------------- trees

  function Without(tree: Tree, deletions: seq<Path>): Tree {
    map p | p in tree && p !in deletions :: tree[p]
  }

  function WithFiles(tree: Tree, additions: seq<(Path, Blob)>): Tree
    decreases |additions|
  {
    if additions == [] then tree
    else WithFiles(tree[additions[0].0 := additions[0].1], additions[1..])
  }

  /** The tree of a commit: deletions removed from the parent's tree, then additions laid over in order. */
  function Overlay(tree: Tree, deletions: seq<Path>, additions: seq<(Path, Blob)>): Tree {
    WithFiles(Without(tree, deletions), additions)
  }

  /** The first deletion that names a path the tree lacks. */
  function FirstMissing(tree: Tree, deletions: seq<Path>): Option<Path> {
    if deletions == [] then None
    else if deletions[0] !in tree then Some(deletions[0])
    else FirstMissing(tree, deletions[1..])
  }

  predicate NotNamed(additions: seq<(Path, Blob)>, p: Path) {
    forall k :: 0 <= k < |additions| ==> additions[k].0 != p
  }

  /** Addition k is the last one that names path p. */
  predicate LastWrite(additions: seq<(Path, Blob)>, p: Path, k: nat) {
    k < |additions| && additions[k].0 == p && NotNamed(additions[k + 1..], p)
  }

  lemma {:induction false} NotNamedIsKept(tree: Tree, additions: seq<(Path, Blob)>, p: Path)
    requires NotNamed(additions, p)
    ensures p in WithFiles(tree, additions) <==> p in tree
    ensures p in tree ==> WithFiles(tree, additions)[p] == tree[p]
    decreases |additions|
  {
    if additions != [] {
      assert additions[0].0 != p;
      NotNamedIsKept(tree[additions[0].0 := additions[0].1], additions[1..], p);
    }
  }

  lemma {:induction false} LastWriteWins(tree: Tree, additions: seq<(Path, Blob)>, p: Path, k: nat)
    requires LastWrite(additions, p, k)
    ensures p in WithFiles(tree, additions) && WithFiles(tree, additions)[p] == additions[k].1
    decreases k
  {
    var next := tree[additions[0].0 := additions[0].1];
    if k == 0 {
      NotNamedIsKept(next, additions[1..], p);
    } else {
      assert additions[1..][k..] == additions[k + 1..];
      LastWriteWins(next, additions[1..], p, k - 1);
    }
  }

  /** The overlay path by path: the last write wins; a path not written is deleted or as the tree had it. */
  lemma OverlayAt(tree: Tree, deletions: seq<Path>, additions: seq<(Path, Blob)>, p: Path)
    ensures forall k: nat :: LastWrite(additions, p, k) ==>
              p in Overlay(tree, deletions, additions) && Overlay(tree, deletions, additions)[p] == additions[k].1
    ensures NotNamed(additions, p) ==>
              (p in Overlay(tree, deletions, additions) <==> p in tree && p !in deletions)
              && (p in tree && p !in deletions ==> Overlay(tree, deletions, additions)[p] == tree[p])
  {
    var base := Without(tree, deletions);
    forall k: nat | LastWrite(additions, p, k)
      ensures p in WithFiles(base, additions) && WithFiles(base, additions)[p] == additions[k].1
    {
      LastWriteWins(base, additions, p, k);
    }
    if NotNamed(additions, p) {
      NotNamedIsKept(base, additions, p);
    }
  }

  predicate AllIn(tree: Tree, paths: seq<Path>) {
    forall k :: 0 <= k < |paths| ==> paths[k] in tree
  }

  /** The path is the first of the paths that is not in the tree. */
  predicate IsFirstMissing(tree: Tree, paths: seq<Path>, path: Path) {
    exists k :: 0 <= k < |paths| && paths[k] == path && path !in tree && AllIn(tree, paths[..k])
  }

  lemma {:induction false} FirstMissingIs(tree: Tree, deletions: seq<Path>)
    ensures FirstMissing(tree, deletions) == None <==> AllIn(tree, deletions)
    ensures FirstMissing(tree, deletions).Some? ==> IsFirstMissing(tree, deletions, FirstMissing(tree, deletions).value)
    decreases |deletions|
  {
    if deletions != [] {
      var first, rest := deletions[0], deletions[1..];
      assert deletions == [first] + rest;
      if first !in tree {
        assert deletions[0] == first && AllIn(tree, deletions[..0]);
      } else {
        FirstMissingIs(tree, rest);
        if FirstMissing(tree, rest).Some? {
          var path := FirstMissing(tree, rest).value;
          var k :| 0 <= k < |rest| && rest[k] == path && path !in tree && AllIn(tree, rest[..k]);
          assert deletions[k + 1] == path && deletions[..k + 1] == [first] + rest[..k];
        }
      }
    }
  }
}
