/**
  The vote ledger: `POST /vote` as a transition on the abstract database.

  The caller's id comes from the authenticated session, never from the request
  body; the request carries only the post id and the direction. The direction is
  read with Python truthiness: zero means "retract", anything else "vote".
 */
module Votes {
  import opened Store

  datatype VoteRequest = VoteRequest(postId: int, dir: int)

  /** Response messages, spelled as the handler spells them. */
  const Voted := "sucussefully voted"
  const Retracted := "Vote deleted"

  /** Python truthiness of an integer: only zero is falsy. */
  predicate IsUp(dir: int) {
    dir != 0
  }

  /** The vote row the handler looks up: the requested post and the caller. */
  function KeyOf(caller: int, req: VoteRequest): VoteKey {
    (req.postId, caller)
  }

  /** The `vote` handler. */
  function Vote(db: Db, caller: int, req: VoteRequest): (r: Response<string>)
    // error precedence: a missing post is reported before the vote row is looked at
    ensures req.postId !in db.posts ==> r == Rejected(NotFound(PostRow))
    // success exactly when the post exists and the direction flips the pair's state
    ensures r.Changed? <==> req.postId in db.posts && (IsUp(req.dir) <==> KeyOf(caller, req) !in db.votes)
    ensures r.Rejected? && req.postId in db.posts ==>
      r.error == (if IsUp(req.dir) then Conflict else NotFound(VoteRow))
    // after success the caller's pair is present exactly when the direction was "up"
    ensures r.Changed? ==> r.db.votes[KeyOf(caller, req)] == (if IsUp(req.dir) then 1 else 0)
    // and nothing else changed
    ensures r.Changed? ==> r.db.users == db.users && r.db.posts == db.posts
    ensures r.Changed? ==> forall k :: k != KeyOf(caller, req) ==> r.db.votes[k] == db.votes[k]
    ensures r.Changed? ==> r.value == (if IsUp(req.dir) then Voted else Retracted)
  {
    if req.postId !in db.posts then
      Rejected(NotFound(PostRow))
    else
      var key := KeyOf(caller, req);
      var found := key in db.votes;
      if IsUp(req.dir) then
        if found then Rejected(Conflict)
        else Changed(db.(votes := db.votes + multiset{key}), Voted)
      else
        if !found then Rejected(NotFound(VoteRow))
        // the query's delete removes every row matching the pair
        else Changed(db.(votes := db.votes[key := 0]), Retracted)
  }

  /** A successful "up" followed by a "down" on the same post restores the
      database exactly. */
  lemma UpThenDownRestores(db: Db, caller: int, postId: int, up: int, down: int)
    requires IsUp(up) && !IsUp(down)
    requires Vote(db, caller, VoteRequest(postId, up)).Changed?
    ensures Vote(Vote(db, caller, VoteRequest(postId, up)).db, caller, VoteRequest(postId, down))
         == Changed(db, Retracted)
  {
  }

  /** A successful "down" followed by an "up" restores the database exactly,
      provided the ledger held at most one row per pair. Without that invariant
      the "down" removes every duplicate and the "up" puts back only one. */
  lemma DownThenUpRestores(db: Db, caller: int, postId: int, up: int, down: int)
    requires OneVotePerPair(db.votes)
    requires IsUp(up) && !IsUp(down)
    requires Vote(db, caller, VoteRequest(postId, down)).Changed?
    ensures Vote(Vote(db, caller, VoteRequest(postId, down)).db, caller, VoteRequest(postId, up))
         == Changed(db, Voted)
  {
  }

  /** The round trip really needs the invariant: with two rows for the pair,
      "down" then "up" leaves one. */
  lemma DownThenUpLosesDuplicates(posts: map<int, Post>, caller: int, postId: int)
    requires postId in posts
    ensures var db := Db(map[], posts, multiset{(postId, caller), (postId, caller)});
            var mid := Vote(db, caller, VoteRequest(postId, 0));
            mid.Changed? && Vote(mid.db, caller, VoteRequest(postId, 1)).Changed? &&
            Vote(mid.db, caller, VoteRequest(postId, 1)).db != db
  {
  }

  /** Two "up"s in a row: the second is a Conflict. Two "down"s in a row: the
      second is a NotFound for the vote. */
  lemma RepeatIsRejected(db: Db, caller: int, req: VoteRequest)
    requires Vote(db, caller, req).Changed?
    ensures Vote(Vote(db, caller, req).db, caller, req)
         == Rejected(if IsUp(req.dir) then Conflict else NotFound(VoteRow))
  {
  }

  /** Every transition keeps at most one row per pair. */
  lemma VoteKeepsOneVotePerPair(db: Db, caller: int, req: VoteRequest)
    requires OneVotePerPair(db.votes)
    ensures OneVotePerPair(Vote(db, caller, req).Next(db).votes)
  {
  }

  /** Every transition keeps vote rows pointing at stored posts. */
  lemma VoteKeepsVotesReferencePosts(db: Db, caller: int, req: VoteRequest)
    requires VotesReferencePosts(db)
    ensures VotesReferencePosts(Vote(db, caller, req).Next(db))
  {
  }

  /** The outcome depends on the vote table only through the caller's own row
      for the post: other users' votes, and the caller's votes on other posts,
      cannot change whether the request succeeds or which error it gets. */
  lemma OnlyCallersRowMatters(db1: Db, db2: Db, caller: int, req: VoteRequest)
    requires req.postId in db1.posts <==> req.postId in db2.posts
    requires KeyOf(caller, req) in db1.votes <==> KeyOf(caller, req) in db2.votes
    ensures Vote(db1, caller, req).Changed? <==> Vote(db2, caller, req).Changed?
    ensures Vote(db1, caller, req).Rejected? ==> Vote(db1, caller, req).error == Vote(db2, caller, req).error
    ensures Vote(db1, caller, req).Changed? ==>
      Vote(db1, caller, req).value == Vote(db2, caller, req).value
  {
  }

  /** Only the truthiness of `dir` matters: any two non-zero directions behave
      alike. */
  lemma TruthyDirectionsAgree(db: Db, caller: int, postId: int, d1: int, d2: int)
    requires d1 != 0 && d2 != 0
    ensures Vote(db, caller, VoteRequest(postId, d1)) == Vote(db, caller, VoteRequest(postId, d2))
  {
  }

  /** The database after serving a sequence of vote requests in order, each
      with its caller; a rejected request leaves the database as it was. */
  function Replay(db: Db, requests: seq<(int, VoteRequest)>): (after: Db)
    ensures after.users == db.users && after.posts == db.posts
    ensures forall k :: (forall n :: 0 <= n < |requests| ==> KeyOf(requests[n].0, requests[n].1) != k) ==>
      after.votes[k] == db.votes[k]
    decreases |requests|
  {
    if requests == [] then db
    else Replay(Vote(db, requests[0].0, requests[0].1).Next(db), requests[1..])
  }

  /** One row per pair holds after any sequence of vote requests. */
  lemma {:induction false} ReplayKeepsOneVotePerPair(db: Db, requests: seq<(int, VoteRequest)>)
    requires OneVotePerPair(db.votes)
    ensures OneVotePerPair(Replay(db, requests).votes)
    decreases |requests|
  {
    if requests != [] {
      var next := Vote(db, requests[0].0, requests[0].1).Next(db);
      VoteKeepsOneVotePerPair(db, requests[0].0, requests[0].1);
      ReplayKeepsOneVotePerPair(next, requests[1..]);
    }
  }
}
