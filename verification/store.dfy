/**
  The abstract database the route handlers read and write, and the shapes of
  their results.

  The three tables are the `users` table and the `posts` table, both keyed by
  their server-generated integer primary key, and the `votes` table of
  `(post_id, user_id)` rows. Votes are a multiset: the handler code itself only
  ever inserts a row when none exists for the pair, and the "one vote per pair"
  rule is therefore an invariant the handlers keep, not a fact of the type.
 */
module Store {

  /** A registered account. `password` holds whatever the handler stored:
      a hash on registration, the value as given on update. */
  datatype User = User(email: string, password: string)

  /** A post's mutable fields (title, content, published). The handlers set no
      owner on a post. */
  datatype Post = Post(title: string, content: string, published: bool)

  /** One vote row: (post id, user id). */
  type VoteKey = (int, int)

  datatype Db = Db(users: map<int, User>, posts: map<int, Post>, votes: multiset<VoteKey>)

  datatype Option<T> = None | Some(value: T)

  /** Which lookup came back empty. */
  datatype Resource = PostRow | UserRow | VoteRow

  /** The handlers' error outcomes; each is raised before any write. */
  datatype Error =
    | NotFound(resource: Resource)
    | Forbidden
    | Conflict
    | InvalidCredentials

  /** The outcome of a read-only handler: there is no new state to return. */
  datatype Result<T> = Ok(value: T) | Err(error: Error)

  /** The outcome of a handler that may write: the committed state and the
      response body, or an error raised before the commit. */
  datatype Response<T> = Changed(db: Db, value: T) | Rejected(error: Error) {

    /** The database after the request: a rejected request commits nothing. */
    function Next(before: Db): Db {
      if Changed? then db else before
    }
  }

  /** `id` names a stored user whose email is `email`. */
  predicate HasEmail(users: map<int, User>, id: int, email: string) {
    id in users && users[id].email == email
  }

  /** No two stored users share an email. */
  predicate EmailsUnique(users: map<int, User>) {
    forall a, b :: a in users && b in users && users[a].email == users[b].email ==> a == b
  }

  /** Every (post, user) pair has at most one vote row. */
  predicate OneVotePerPair(votes: multiset<VoteKey>) {
    forall k :: k in votes ==> votes[k] == 1
  }

  /** Every vote row refers to a stored post. */
  predicate VotesReferencePosts(db: Db) {
    forall k :: k in db.votes ==> k.0 in db.posts
  }
}
