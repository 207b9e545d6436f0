/**
Review comments and the threads they form.  A reply names its parent; a thread is a root and
everything that answers it, directly or not.  Deleting a comment re-parents its replies, and when a
root goes its oldest reply takes over the thread.
*/
module ReviewThreads {
  import opened Wrappers

  type CommentId = nat
  type UserId = nat
  type Time = int

  /** Where a conversation stands in the diff, and whether it is resolved; kept on the thread's root. */
  datatype Anchor = Anchor(
    path: string,
    position: Option<int>,
    line: Option<int>,
    side: Option<string>,
    commitId: string,
    originalCommitId: Option<string>,
    diffHunk: Option<string>,
    subjectType: Option<string>,
    threadResolvedAt: Option<Time>,
    threadResolvedBy: Option<UserId>)

  datatype Comment = Comment(
    inReplyTo: Option<CommentId>,
    createdAt: Time,
    author: UserId,
    body: string,
    anchor: Anchor)

  type Comments = map<CommentId, Comment>

  // ---------------------------------------------------------------- forests and threads

  /** Every parent is present and ranked below its replies, so following parents ends at a root. */
  predicate Ranked(m: Comments, rank: map<CommentId, nat>) {
    && rank.Keys == m.Keys
    && forall id :: id in m && m[id].inReplyTo.Some? ==>
         m[id].inReplyTo.value in m && rank[m[id].inReplyTo.value] < rank[id]
  }

  ghost predicate Forest(m: Comments) {
    exists rank :: Ranked(m, rank)
  }

  function RootBy(m: Comments, rank: map<CommentId, nat>, id: CommentId): (root: CommentId)
    requires Ranked(m, rank) && id in m
    ensures root in m && m[root].inReplyTo == None
    decreases rank[id]
  {
    if m[id].inReplyTo == None then id else RootBy(m, rank, m[id].inReplyTo.value)
  }

  lemma {:induction false} RootIsUnique(m: Comments, r1: map<CommentId, nat>, r2: map<CommentId, nat>, id: CommentId)
    requires Ranked(m, r1) && Ranked(m, r2) && id in m
    ensures RootBy(m, r1, id) == RootBy(m, r2, id)
    decreases r1[id]
  {
    if m[id].inReplyTo.Some? {
      RootIsUnique(m, r1, r2, m[id].inReplyTo.value);
    }
  }

  ghost function ThreadRoot(m: Comments, id: CommentId): (root: CommentId)
    requires Forest(m) && id in m
    ensures root in m && m[root].inReplyTo == None
  {
    var rank :| Ranked(m, rank);
    RootBy(m, rank, id)
  }

  ghost predicate SameThread(m: Comments, a: CommentId, b: CommentId)
    requires Forest(m) && a in m && b in m
  {
    ThreadRoot(m, a) == ThreadRoot(m, b)
  }

  // ---------------------------------------------------------------- deletion

  function Replies(m: Comments, id: CommentId): set<CommentId> {
    set k | k in m && m[k].inReplyTo == Some(id)
  }

  /** The order in which replies are read: by time, then by id. */
  predicate Before(m: Comments, a: CommentId, b: CommentId)
    requires a in m && b in m
  {
    m[a].createdAt < m[b].createdAt || (m[a].createdAt == m[b].createdAt && a <= b)
  }

  predicate IsOldest(m: Comments, ids: set<CommentId>, n: CommentId) {
    && n in ids && n in m
    && forall k :: k in ids && k in m ==> Before(m, n, k)
  }

  lemma {:induction false} OldestExists(m: Comments, ids: set<CommentId>)
    requires ids != {} && ids <= m.Keys
    ensures exists n :: IsOldest(m, ids, n)
    decreases |ids|
  {
    var x :| x in ids;
    if ids == {x} {
      assert IsOldest(m, ids, x);
    } else {
      OldestExists(m, ids - {x});
      var y :| IsOldest(m, ids - {x}, y);
      assert IsOldest(m, ids, if Before(m, x, y) then x else y);
    }
  }

  ghost function Oldest(m: Comments, ids: set<CommentId>): (n: CommentId)
    requires ids != {} && ids <= m.Keys
    ensures IsOldest(m, ids, n)
  {
    OldestExists(m, ids);
    var n :| IsOldest(m, ids, n);
    n
  }

  /** A reply's own replies move up to its parent. */
  function MovedUp(m: Comments, id: CommentId): Comments
    requires id in m
  {
    map k | k in m && k != id ::
      if m[k].inReplyTo == Some(id) then m[k].(inReplyTo := m[id].inReplyTo) else m[k]
  }

  /** A root hands its thread, with the thread's anchor, to its reply n. */
  function HandedOver(m: Comments, id: CommentId, n: CommentId): Comments
    requires id in m && n in m
  {
    map k | k in m && k != id ::
      if k == n then m[n].(inReplyTo := None, anchor := m[id].anchor)
      else if m[k].inReplyTo == Some(id) then m[k].(inReplyTo := Some(n))
      else m[k]
  }

  ghost function Deleted(m: Comments, id: CommentId): Comments {
    if id !in m then m
    else if m[id].inReplyTo.Some? then MovedUp(m, id)
    else if Replies(m, id) != {} then HandedOver(m, id, Oldest(m, Replies(m, id)))
    else m - {id}
  }

  ghost function DeletedAll(m: Comments, ids: seq<CommentId>): Comments
    decreases |ids|
  {
    if ids == [] then m else DeletedAll(Deleted(m, ids[0]), ids[1..])
  }

  // ---------------------------------------------------------------- what a deletion keeps

  lemma {:induction false} RootsAfterMoveUp(m: Comments, rank: map<CommentId, nat>, id: CommentId, x: CommentId)
    requires Ranked(m, rank) && id in m && m[id].inReplyTo.Some? && x in m && x != id
    requires Ranked(MovedUp(m, id), rank - {id})
    ensures RootBy(MovedUp(m, id), rank - {id}, x) == RootBy(m, rank, x)
    decreases rank[x]
  {
    var p := m[x].inReplyTo;
    if p == Some(id) {
      RootsAfterMoveUp(m, rank, id, m[id].inReplyTo.value);
    } else if p.Some? {
      RootsAfterMoveUp(m, rank, id, p.value);
    }
  }

  function Shifted(rank: map<CommentId, nat>, id: CommentId, n: CommentId): map<CommentId, nat> {
    map k | k in rank && k != id :: if k == n then 0 else rank[k] + 1
  }

  lemma {:induction false} RootsAfterHandover(m: Comments, rank: map<CommentId, nat>, id: CommentId, n: CommentId,
                                              x: CommentId)
    requires Ranked(m, rank) && id in m && m[id].inReplyTo == None
    requires n in m && m[n].inReplyTo == Some(id) && x in m && x != id
    requires Ranked(HandedOver(m, id, n), Shifted(rank, id, n))
    ensures RootBy(HandedOver(m, id, n), Shifted(rank, id, n), x)
         == if RootBy(m, rank, x) == id then n else RootBy(m, rank, x)
    decreases rank[x]
  {
    var h, s := HandedOver(m, id, n), Shifted(rank, id, n);
    assert RootBy(h, s, n) == n;
    if x != n && m[x].inReplyTo.Some? {
      if m[x].inReplyTo.value == id {
        assert RootBy(m, rank, x) == RootBy(m, rank, id) == id;
        assert RootBy(h, s, x) == RootBy(h, s, n);
      } else {
        RootsAfterHandover(m, rank, id, n, m[x].inReplyTo.value);
      }
    }
  }

  /** The root of a surviving thread: the old one, or the promoted reply if the old one was deleted. */
  ghost function RootAfter(m: Comments, id: CommentId, root: CommentId): CommentId {
    if root == id && Replies(m, id) != {} then Oldest(m, Replies(m, id)) else root
  }

  /** d is m without comment id, and each survivor's root is the one RootAfter names. */
  ghost predicate ThreadsCarriedOver(m: Comments, id: CommentId, d: Comments) {
    && Forest(m) && Forest(d)
    && d.Keys == m.Keys - {id}
    && forall x :: x in d ==> ThreadRoot(d, x) == RootAfter(m, id, ThreadRoot(m, x))
  }

  lemma MoveUpCarriesOver(m: Comments, rank: map<CommentId, nat>, id: CommentId)
    requires Ranked(m, rank) && id in m && m[id].inReplyTo.Some?
    ensures ThreadsCarriedOver(m, id, MovedUp(m, id))
  {
    var d := MovedUp(m, id);
    assert Ranked(d, rank - {id});
    forall x | x in d ensures ThreadRoot(d, x) == RootAfter(m, id, ThreadRoot(m, x)) {
      RootsAfterMoveUp(m, rank, id, x);
      AnyRankGivesTheRoot(m, rank, x);
      AnyRankGivesTheRoot(d, rank - {id}, x);
    }
  }

  lemma HandoverCarriesOver(m: Comments, rank: map<CommentId, nat>, id: CommentId)
    requires Ranked(m, rank) && id in m && m[id].inReplyTo == None && Replies(m, id) != {}
    ensures ThreadsCarriedOver(m, id, HandedOver(m, id, Oldest(m, Replies(m, id))))
  {
    var n := Oldest(m, Replies(m, id));
    var d, s := HandedOver(m, id, n), Shifted(rank, id, n);
    assert Ranked(d, s);
    forall x | x in d ensures ThreadRoot(d, x) == RootAfter(m, id, ThreadRoot(m, x)) {
      RootsAfterHandover(m, rank, id, n, x);
      AnyRankGivesTheRoot(m, rank, x);
      AnyRankGivesTheRoot(d, s, x);
    }
  }

  lemma RemovalCarriesOver(m: Comments, rank: map<CommentId, nat>, id: CommentId)
    requires Ranked(m, rank) && id in m && Replies(m, id) == {}
    ensures ThreadsCarriedOver(m, id, m - {id})
  {
    var d := m - {id};
    forall x | x in d ensures x !in Replies(m, id) {}
    assert Ranked(d, rank - {id});
    forall x | x in d ensures ThreadRoot(d, x) == RootAfter(m, id, ThreadRoot(m, x)) {
      RootsAfterRemoval(m, rank, id, x);
      AnyRankGivesTheRoot(m, rank, x);
      AnyRankGivesTheRoot(d, rank - {id}, x);
    }
  }

  /**
  Deleting one comment leaves a forest of the remaining comments.  Every survivor keeps its root,
  except that the oldest reply stands in for a deleted root, with the anchor the root had.
  */
  lemma DeletionKeepsThreads(m: Comments, id: CommentId)
    requires Forest(m)
    ensures ThreadsCarriedOver(m, id, Deleted(m, id))
    ensures var d := Deleted(m, id);
            forall x :: x in d ==> d[ThreadRoot(d, x)].anchor == m[ThreadRoot(m, x)].anchor
  {
    var rank :| Ranked(m, rank);
    if id in m {
      if m[id].inReplyTo.Some? {
        MoveUpCarriesOver(m, rank, id);
      } else if Replies(m, id) != {} {
        HandoverCarriesOver(m, rank, id);
      } else {
        RemovalCarriesOver(m, rank, id);
      }
    }
  }

  lemma AnyRankGivesTheRoot(m: Comments, rank: map<CommentId, nat>, x: CommentId)
    requires Ranked(m, rank) && x in m
    ensures Forest(m) && ThreadRoot(m, x) == RootBy(m, rank, x)
  {
    var other :| Ranked(m, other) && ThreadRoot(m, x) == RootBy(m, other, x);
    RootIsUnique(m, rank, other, x);
  }

  lemma {:induction false} RootsAfterRemoval(m: Comments, rank: map<CommentId, nat>, id: CommentId, x: CommentId)
    requires Ranked(m, rank) && id in m && Replies(m, id) == {} && x in m && x != id
    requires Ranked(m - {id}, rank - {id})
    ensures RootBy(m - {id}, rank - {id}, x) == RootBy(m, rank, x) != id
    decreases rank[x]
  {
    assert x !in Replies(m, id);
    if m[x].inReplyTo.Some? {
      RootsAfterRemoval(m, rank, id, m[x].inReplyTo.value);
    }
  }

  /** Two survivors share a thread after a deletion exactly when they shared one before. */
  lemma DeletionKeepsSharing(m: Comments, id: CommentId, a: CommentId, b: CommentId)
    requires Forest(m) && a in Deleted(m, id) && b in Deleted(m, id)
    ensures Forest(Deleted(m, id)) && a in m && b in m
    ensures SameThread(Deleted(m, id), a, b) <==> SameThread(m, a, b)
  {
    DeletionKeepsThreads(m, id);
    var ra, rb := ThreadRoot(m, a), ThreadRoot(m, b);
    if ra == id && Replies(m, id) != {} {
      assert m[Oldest(m, Replies(m, id))].inReplyTo.Some?;
    }
  }

  /**
  Threads survive any sequence of deletions: what is left is a forest of exactly the comments not
  deleted, survivors share a thread exactly when they did, and each surviving thread's root carries
  the anchor the thread had to begin with.
  */
  lemma ThreadsSurvive(m: Comments, ids: seq<CommentId>)
    requires Forest(m)
    ensures var d := DeletedAll(m, ids);
            && Forest(d)
            && d.Keys == m.Keys - (set i | i in ids)
            && (forall x :: x in d ==> d[ThreadRoot(d, x)].anchor == m[ThreadRoot(m, x)].anchor)
            && forall x, y :: x in d && y in d ==> (SameThread(d, x, y) <==> SameThread(m, x, y))
  {
    ForestSurvives(m, ids);
    var d := DeletedAll(m, ids);
    forall x | x in d ensures d[ThreadRoot(d, x)].anchor == m[ThreadRoot(m, x)].anchor {
      PairSurvives(m, ids, x, x);
    }
    forall x, y | x in d && y in d ensures SameThread(d, x, y) <==> SameThread(m, x, y) {
      PairSurvives(m, ids, x, y);
    }
  }

  lemma {:induction false} ForestSurvives(m: Comments, ids: seq<CommentId>)
    requires Forest(m)
    ensures Forest(DeletedAll(m, ids)) && DeletedAll(m, ids).Keys == m.Keys - (set i | i in ids)
    decreases |ids|
  {
    if ids != [] {
      DeletionKeepsThreads(m, ids[0]);
      ForestSurvives(Deleted(m, ids[0]), ids[1..]);
      assert (set i | i in ids) == {ids[0]} + (set i | i in ids[1..]);
    }
  }

  lemma {:induction false} PairSurvives(m: Comments, ids: seq<CommentId>, x: CommentId, y: CommentId)
    requires Forest(m) && x in DeletedAll(m, ids) && y in DeletedAll(m, ids)
    ensures Forest(DeletedAll(m, ids)) && x in m && y in m
    ensures var d := DeletedAll(m, ids);
            && d[ThreadRoot(d, x)].anchor == m[ThreadRoot(m, x)].anchor
            && (SameThread(d, x, y) <==> SameThread(m, x, y))
    decreases |ids|
  {
    if ids != [] {
      DeletionKeepsThreads(m, ids[0]);
      PairSurvives(Deleted(m, ids[0]), ids[1..], x, y);
      DeletionKeepsSharing(m, ids[0], x, y);
    }
  }

  // ---------------------------------------------------------------- who answers whom

  /** The comment, the one it answers, and so on to the root. */
  function ChainBy(m: Comments, rank: map<CommentId, nat>, id: CommentId): seq<CommentId>
    requires Ranked(m, rank) && id in m
    decreases rank[id]
  {
    if m[id].inReplyTo == None then [id] else [id] + ChainBy(m, rank, m[id].inReplyTo.value)
  }

  ghost function Chain(m: Comments, id: CommentId): seq<CommentId>
    requires Forest(m) && id in m
  {
    var rank :| Ranked(m, rank);
    ChainBy(m, rank, id)
  }

  lemma {:induction false} ChainIsUnique(m: Comments, r1: map<CommentId, nat>, r2: map<CommentId, nat>, id: CommentId)
    requires Ranked(m, r1) && Ranked(m, r2) && id in m
    ensures ChainBy(m, r1, id) == ChainBy(m, r2, id)
    decreases r1[id]
  {
    if m[id].inReplyTo.Some? {
      ChainIsUnique(m, r1, r2, m[id].inReplyTo.value);
    }
  }

  lemma AnyRankGivesTheChain(m: Comments, rank: map<CommentId, nat>, x: CommentId)
    requires Ranked(m, rank) && x in m
    ensures Forest(m) && Chain(m, x) == ChainBy(m, rank, x)
  {
    var other :| Ranked(m, other) && Chain(m, x) == ChainBy(m, other, x);
    ChainIsUnique(m, rank, other, x);
  }

  function TakenOut(chain: seq<CommentId>, id: CommentId): seq<CommentId> {
    if chain == [] then []
    else (if chain[0] == id then [] else [chain[0]]) + TakenOut(chain[1..], id)
  }

  function StoodInFor(chain: seq<CommentId>, id: CommentId, n: CommentId): seq<CommentId> {
    seq(|chain|, i requires 0 <= i < |chain| => if chain[i] == id then n else chain[i])
  }

  /** The reply that takes over the thread of a deleted root: the first made, of several the one of lowest id. */
  predicate Promoted(m: Comments, id: CommentId, n: CommentId) {
    && id in m && m[id].inReplyTo == None && n in m && m[n].inReplyTo == Some(id)
    && forall k :: k in m && m[k].inReplyTo == Some(id) ==>
         m[n].createdAt < m[k].createdAt || (m[n].createdAt == m[k].createdAt && n <= k)
  }

  /** A chain without the deleted comment; a promoted reply that is not on it stands in for the deleted root. */
  predicate ChainCarried(m: Comments, id: CommentId, before: seq<CommentId>, after: seq<CommentId>) {
    && ((forall n :: n in m ==> !Promoted(m, id, n)) ==> after == TakenOut(before, id))
    && forall n :: n in m && Promoted(m, id, n) ==>
         after == HandedChain(before, id, n)
  }

  function HandedChain(chain: seq<CommentId>, id: CommentId, n: CommentId): seq<CommentId> {
    if n in chain then TakenOut(chain, id) else StoodInFor(chain, id, n)
  }

  lemma HandedFirst(first: CommentId, rest: seq<CommentId>, id: CommentId, n: CommentId)
    requires first != id && first != n
    ensures HandedChain([first] + rest, id, n) == [first] + HandedChain(rest, id, n)
  {
    TakenOutFirst(first, rest, id);
    assert StoodInFor([first] + rest, id, n) == [first] + StoodInFor(rest, id, n);
  }

  lemma HandedLast(first: CommentId, id: CommentId, n: CommentId)
    requires first != id && n != id
    ensures HandedChain([first] + [id], id, n) == if first == n then [n] else [first] + [n]
  {
    TakenOutFirst(first, [id], id);
    TakenOutFirst(id, [], id);
    assert [id] + [] == [id];
    if first != n { assert StoodInFor([first] + [id], id, n) == [first] + [n]; }
  }

  lemma PromotedIsOldest(m: Comments, id: CommentId, n: CommentId)
    requires id in m && m[id].inReplyTo == None && Replies(m, id) != {}
    ensures Promoted(m, id, n) <==> n == Oldest(m, Replies(m, id))
  {
    var oldest := Oldest(m, Replies(m, id));
    assert oldest in Replies(m, id);
    forall k | k in m && m[k].inReplyTo == Some(id)
      ensures m[oldest].createdAt < m[k].createdAt || (m[oldest].createdAt == m[k].createdAt && oldest <= k)
    {
      assert k in Replies(m, id);
    }
  }

  lemma NoReplyNoPromotion(m: Comments, id: CommentId)
    requires id in m && (Replies(m, id) == {} || m[id].inReplyTo.Some?)
    ensures forall k :: !Promoted(m, id, k)
  {
    forall k | k in m && m[k].inReplyTo == Some(id) ensures k in Replies(m, id) { }
  }

  /** A deleted root with a reply has one that takes over. */
  lemma SomeReplyIsPromoted(m: Comments, id: CommentId, k: CommentId)
    requires id in m && m[id].inReplyTo == None && k in m && m[k].inReplyTo == Some(id)
    ensures exists n :: Promoted(m, id, n)
  {
    assert k in Replies(m, id);
    PromotedIsOldest(m, id, Oldest(m, Replies(m, id)));
  }

  lemma {:induction false} ChainsAfterMoveUp(m: Comments, rank: map<CommentId, nat>, id: CommentId, x: CommentId)
    requires Ranked(m, rank) && id in m && m[id].inReplyTo.Some? && x in m && x != id
    requires Ranked(MovedUp(m, id), rank - {id})
    ensures ChainBy(MovedUp(m, id), rank - {id}, x) == TakenOut(ChainBy(m, rank, x), id)
    decreases rank[x]
  {
    var p := m[x].inReplyTo;
    if p == Some(id) {
      var g := m[id].inReplyTo.value;
      ChainsAfterMoveUp(m, rank, id, g);
      TakenOutFirst(x, ChainBy(m, rank, id), id);
      TakenOutFirst(id, ChainBy(m, rank, g), id);
    } else if p.Some? {
      ChainsAfterMoveUp(m, rank, id, p.value);
      TakenOutFirst(x, ChainBy(m, rank, p.value), id);
    }
  }

  lemma TakenOutFirst(first: CommentId, rest: seq<CommentId>, id: CommentId)
    ensures TakenOut([first] + rest, id) == (if first == id then [] else [first]) + TakenOut(rest, id)
  {
    assert ([first] + rest)[1..] == rest;
  }

  /** Comments h are m without root id, whose replies, n apart, answer n. */
  predicate Answers(m: Comments, h: Comments, id: CommentId, n: CommentId) {
    forall k :: k in m && k != id ==>
      && k in h
      && h[k].inReplyTo == if k == n then None else if m[k].inReplyTo == Some(id) then Some(n) else m[k].inReplyTo
  }

  lemma {:induction false} ChainsAfterHandover(m: Comments, rank: map<CommentId, nat>, h: Comments,
                                               s: map<CommentId, nat>, id: CommentId, n: CommentId, x: CommentId)
    requires Ranked(m, rank) && Ranked(h, s) && Answers(m, h, id, n) && id in m && m[id].inReplyTo == None
    requires n in m && m[n].inReplyTo == Some(id) && x in m && x != id
    ensures x in h && ChainBy(h, s, x) == HandedChain(ChainBy(m, rank, x), id, n)
    decreases rank[x]
  {
    var p := m[x].inReplyTo;
    if p == Some(id) {
      ChainOfReply(m, rank, x, id);
      HandedLast(x, id, n);
      if x != n { ChainOfReply(h, s, x, n); }
    } else if p.Some? {
      ChainsAfterHandover(m, rank, h, s, id, n, p.value);
      HandedFirst(x, ChainBy(m, rank, p.value), id, n);
    } else {
      HandedFirst(x, [], id, n);
      assert [x] + [] == [x];
    }
  }

  lemma ChainOfReply(m: Comments, rank: map<CommentId, nat>, x: CommentId, root: CommentId)
    requires Ranked(m, rank) && x in m && m[x].inReplyTo == Some(root) && m[root].inReplyTo == None
    ensures ChainBy(m, rank, x) == [x] + [root]
  {
    assert ChainBy(m, rank, root) == [root];
  }

  lemma {:induction false} ChainsAfterRemoval(m: Comments, rank: map<CommentId, nat>, id: CommentId, x: CommentId)
    requires Ranked(m, rank) && id in m && Replies(m, id) == {} && x in m && x != id
    requires Ranked(m - {id}, rank - {id})
    ensures ChainBy(m - {id}, rank - {id}, x) == TakenOut(ChainBy(m, rank, x), id)
    decreases rank[x]
  {
    assert x !in Replies(m, id);
    if m[x].inReplyTo.Some? {
      ChainsAfterRemoval(m, rank, id, m[x].inReplyTo.value);
      TakenOutFirst(x, ChainBy(m, rank, m[x].inReplyTo.value), id);
    }
  }

  lemma HandoverKeepsChains(m: Comments, rank: map<CommentId, nat>, id: CommentId, x: CommentId)
    requires Ranked(m, rank) && id in m && m[id].inReplyTo == None && Replies(m, id) != {} && x in m && x != id
    requires Forest(m) && Forest(Deleted(m, id)) && x in Deleted(m, id)
    ensures ChainCarried(m, id, ChainBy(m, rank, x), Chain(Deleted(m, id), x))
  {
    var n := Oldest(m, Replies(m, id));
    var h, s := HandedOver(m, id, n), Shifted(rank, id, n);
    assert Ranked(h, s) && Answers(m, h, id, n);
    ChainsAfterHandover(m, rank, h, s, id, n, x);
    AnyRankGivesTheChain(h, s, x);
    forall k ensures Promoted(m, id, k) <==> k == n { PromotedIsOldest(m, id, k); }
  }

  /**
  A deletion takes the deleted comment out of every chain of answers and leaves the rest of it in place;
  where a root was deleted, the promoted reply stands in for it on the chains it is not on.
  */
  lemma DeletionKeepsChains(m: Comments, id: CommentId, x: CommentId)
    requires Forest(m) && id in m && x in m && x != id
    ensures Forest(Deleted(m, id)) && x in Deleted(m, id)
    ensures ChainCarried(m, id, Chain(m, x), Chain(Deleted(m, id), x))
  {
    DeletionKeepsThreads(m, id);
    var rank :| Ranked(m, rank);
    AnyRankGivesTheChain(m, rank, x);
    if m[id].inReplyTo.Some? {
      assert Ranked(MovedUp(m, id), rank - {id});
      ChainsAfterMoveUp(m, rank, id, x);
      AnyRankGivesTheChain(MovedUp(m, id), rank - {id}, x);
      NoReplyNoPromotion(m, id);
    } else if Replies(m, id) != {} {
      HandoverKeepsChains(m, rank, id, x);
    } else {
      forall k | k in m - {id} ensures k !in Replies(m, id) { }
      assert Ranked(m - {id}, rank - {id});
      ChainsAfterRemoval(m, rank, id, x);
      AnyRankGivesTheChain(m - {id}, rank - {id}, x);
      NoReplyNoPromotion(m, id);
    }
  }

  /** What a comment says, who said it and when stay; so does its place in the diff, but for the promoted reply. */
  lemma DeletionKeepsContents(m: Comments, id: CommentId)
    ensures var d := Deleted(m, id);
            forall x :: x in d ==>
              && x in m && d[x].body == m[x].body && d[x].author == m[x].author && d[x].createdAt == m[x].createdAt
              && d[x].anchor == if Promoted(m, id, x) then m[id].anchor else m[x].anchor
  {
    if id in m && m[id].inReplyTo == None && Replies(m, id) != {} {
      forall x ensures Promoted(m, id, x) <==> x == Oldest(m, Replies(m, id)) { PromotedIsOldest(m, id, x); }
    } else {
      forall x | x in m ensures !Promoted(m, id, x) {
        if id in m && m[id].inReplyTo == None { assert x !in Replies(m, id); }
      }
    }
  }

  /** Whom a survivor answers: whom it did, unless that was the deleted comment. */
  predicate AnswersNow(m: Comments, id: CommentId, x: CommentId, p: Option<CommentId>)
    requires id in m && x in m
  {
    if m[x].inReplyTo != Some(id) then p == m[x].inReplyTo
    else if m[id].inReplyTo.Some? then p == m[id].inReplyTo
    else if Promoted(m, id, x) then p == None
    else p.Some? && Promoted(m, id, p.value)
  }

  lemma DeletionReparents(m: Comments, id: CommentId, x: CommentId)
    requires id in m && x in Deleted(m, id)
    ensures x in m && AnswersNow(m, id, x, Deleted(m, id)[x].inReplyTo)
  {
    if m[x].inReplyTo == Some(id) && m[id].inReplyTo == None {
      assert x in Replies(m, id);
      PromotedIsOldest(m, id, x);
      PromotedIsOldest(m, id, Oldest(m, Replies(m, id)));
    }
  }

  lemma {:induction false} TakenOutKeeps(chain: seq<CommentId>, id: CommentId, a: CommentId)
    ensures a in TakenOut(chain, id) <==> a in chain && a != id
    decreases |chain|
  {
    if chain != [] {
      TakenOutKeeps(chain[1..], id, a);
      assert chain == [chain[0]] + chain[1..];
    }
  }

  lemma StoodInKeeps(chain: seq<CommentId>, id: CommentId, n: CommentId, a: CommentId)
    requires a in chain && a != id
    ensures a in StoodInFor(chain, id, n)
  {
    var i :| 0 <= i < |chain| && chain[i] == a;
    assert StoodInFor(chain, id, n)[i] == a;
  }

  lemma AncestryKept(m: Comments, id: CommentId, a: CommentId, x: CommentId)
    requires Forest(m) && a in Deleted(m, id) && x in Deleted(m, id) && x in m && a in Chain(m, x)
    ensures Forest(Deleted(m, id)) && a in Chain(Deleted(m, id), x)
  {
    if id in m {
      DeletionKeepsThreads(m, id);
      DeletionKeepsChains(m, id, x);
      var before := Chain(m, x);
      TakenOutKeeps(before, id, a);
      if n :| n in m && Promoted(m, id, n) {
        StoodInKeeps(before, id, n, a);
      }
    }
  }

  /** Over any sequence of deletions, a comment that answers another, directly or not, goes on doing so. */
  lemma {:induction false} AncestrySurvives(m: Comments, ids: seq<CommentId>, a: CommentId, x: CommentId)
    requires Forest(m) && x in m && a in Chain(m, x) && a in DeletedAll(m, ids) && x in DeletedAll(m, ids)
    ensures Forest(DeletedAll(m, ids)) && a in Chain(DeletedAll(m, ids), x)
    decreases |ids|
  {
    if ids != [] {
      var d := Deleted(m, ids[0]);
      DeletionKeepsThreads(m, ids[0]);
      ForestSurvives(d, ids[1..]);
      AncestryKept(m, ids[0], a, x);
      AncestrySurvives(d, ids[1..], a, x);
    }
  }

  // ---------------------------------------------------------------- creation

  /**
  A new comment keeps the forest exactly when it answers nothing or an existing comment.  The
  create route does not look: a parent that is missing, or the new comment's own id, is stored.
  */
  lemma CreationKeepsForestIff(m: Comments, id: CommentId, c: Comment)
    requires Forest(m) && id !in m
    ensures Forest(m[id := c]) <==> (c.inReplyTo == None || c.inReplyTo.value in m)
  {
    var rank :| Ranked(m, rank);
    var n := m[id := c];
    if c.inReplyTo == None {
      assert Ranked(n, rank[id := 0]);
    } else if c.inReplyTo.value in m {
      assert Ranked(n, rank[id := rank[c.inReplyTo.value] + 1]);
    } else {
      assert id in n && n[id].inReplyTo == c.inReplyTo;
      assert forall r: map<CommentId, nat> :: !Ranked(n, r);
    }
  }

  // ---------------------------------------------------------------- the route

  class ReviewComments {
    var comments: Comments

    constructor (comments: Comments)
      ensures this.comments == comments
    {
      this.comments := comments;
    }

    /** The replies of a comment, oldest first. */
    method Children(id: CommentId) returns (rows: seq<CommentId>)
      ensures forall k :: k in rows <==> k in Replies(comments, id)
      ensures forall i :: 0 <= i < |rows| ==> rows[i] in comments
      ensures forall i, j :: 0 <= i < j < |rows| ==> rows[i] != rows[j] && Before(comments, rows[i], rows[j])
    {
      rows := [];
      var left := Replies(comments, id);
      while left != {}
        invariant left <= Replies(comments, id)
        invariant forall k :: k in rows <==> k in Replies(comments, id) - left
        invariant forall i :: 0 <= i < |rows| ==> rows[i] in comments
        invariant forall i, k :: 0 <= i < |rows| && k in left ==> Before(comments, rows[i], k)
        invariant forall i, j :: 0 <= i < j < |rows| ==> rows[i] != rows[j] && Before(comments, rows[i], rows[j])
        decreases |left|
      {
        OldestExists(comments, left);
        var n :| n in left && IsOldest(comments, left, n);
        ghost var was := rows;
        rows := rows + [n];
        left := left - {n};
        assert forall k :: k in rows <==> k in was || k == n;
      }
    }

    method Reparent(rows: seq<CommentId>, parent: Option<CommentId>)
      requires forall i :: 0 <= i < |rows| ==> rows[i] in comments
      modifies this
      ensures comments == Reparented(old(comments), rows, parent)
    {
      ghost var m := comments;
      assert Reparented(m, rows[..0], parent) == m;
      for i := 0 to |rows|
        invariant comments == Reparented(m, rows[..i], parent)
      {
        assert rows[..i + 1] == rows[..i] + [rows[i]];
        comments := comments[rows[i] := comments[rows[i]].(inReplyTo := parent)];
      }
      assert rows[..|rows|] == rows;
    }

    method DeleteReviewComment(id: CommentId) returns (found: bool)
      modifies this
      ensures comments == Deleted(old(comments), id)
      ensures found == (id in old(comments))
      ensures found ==>
                && comments.Keys == old(comments).Keys - {id}
                && forall x :: x in comments ==> AnswersNow(old(comments), id, x, comments[x].inReplyTo)
    {
      if id !in comments {
        return false;
      }
      ghost var was := comments;
      forall x | x in Deleted(was, id) ensures x in was && AnswersNow(was, id, x, Deleted(was, id)[x].inReplyTo) {
        DeletionReparents(was, id, x);
      }
      var comment := comments[id];
      var children := Children(id);
      if comment.inReplyTo.Some? {
        Reparent(children, comment.inReplyTo);
      } else if |children| > 0 {
        var newRoot, rest := children[0], children[1..];
        OldestIsFirst(comments, id, children);
        comments := comments[newRoot := comments[newRoot].(inReplyTo := None, anchor := comment.anchor)];
        Reparent(rest, Some(newRoot));
        RestFollows(old(comments), id, children);
      } else {
        NoChildrenNoReplies(comments, id, children);
      }
      comments := comments - {id};
      return true;
    }
  }

  function Reparented(m: Comments, rows: seq<CommentId>, parent: Option<CommentId>): Comments {
    map k | k in m :: if k in rows then m[k].(inReplyTo := parent) else m[k]
  }

  lemma NoChildrenNoReplies(m: Comments, id: CommentId, rows: seq<CommentId>)
    requires rows == [] && forall k :: k in rows <==> k in Replies(m, id)
    ensures Replies(m, id) == {}
  {
  }

  lemma OldestIsFirst(m: Comments, id: CommentId, rows: seq<CommentId>)
    requires |rows| > 0 && forall k :: k in rows <==> k in Replies(m, id)
    requires forall i :: 0 <= i < |rows| ==> rows[i] in m
    requires forall i, j :: 0 <= i < j < |rows| ==> rows[i] != rows[j] && Before(m, rows[i], rows[j])
    ensures Replies(m, id) != {} && Oldest(m, Replies(m, id)) == rows[0]
  {
    assert rows[0] in Replies(m, id);
    var n := Oldest(m, Replies(m, id));
    assert n in rows;
    var i :| 0 <= i < |rows| && rows[i] == n;
    assert Before(m, n, rows[0]);
  }

  lemma RestFollows(m: Comments, id: CommentId, rows: seq<CommentId>)
    requires id in m && |rows| > 0 && (forall k :: k in rows <==> k in Replies(m, id)) && rows[0] in m
    requires m[id].inReplyTo == None && forall j :: 0 < j < |rows| ==> rows[0] != rows[j]
    ensures var n := rows[0];
            Reparented(m[n := m[n].(inReplyTo := None, anchor := m[id].anchor)], rows[1..], Some(n)) - {id}
              == HandedOver(m, id, n)
  {
    var n, rest := rows[0], rows[1..];
    assert rows == [n] + rest;
    forall k | k in m ensures k in rest <==> k in Replies(m, id) && k != n {}
    var promoted := m[n := m[n].(inReplyTo := None, anchor := m[id].anchor)];
    var left := Reparented(promoted, rest, Some(n)) - {id};
    assert left.Keys == HandedOver(m, id, n).Keys;
    forall k | k in left ensures left[k] == HandedOver(m, id, n)[k] {}
  }
}
