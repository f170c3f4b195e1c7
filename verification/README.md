# Blog API route handlers, modelled in Dafny

This project models the decision logic of a small FastAPI blog backend: the
route handlers for users (`/users`), posts (`/posts`), votes (`/vote`) and
login (`/login`). Each handler becomes a pure function over an abstract
database (`Store.Db`): a map of users keyed by id, a map of posts keyed by id,
and a multiset of `(post_id, user_id)` vote rows. Every handler except
registration (`create_user`) and `login` takes the authenticated caller's id
as an explicit parameter, including the readers that never consult it. Each
handler returns either an error (`NotFound`, `Forbidden`, `Conflict`,
`InvalidCredentials`) raised before any write, or the committed state
together with the response body. Read-only handlers (`get_*`, `login`) return
no state at all, so they cannot change the store.

Files, one module each:

- `store.dfy` (`Store`): the tables, the error and result types, and the
  invariants (unique emails, one vote per pair, votes refer to stored posts).
- `rows.dfy` (`Rows`): enumeration of a table's keys. Listings and
  `.first()` lookups visit rows in ascending primary-key order. SQL leaves the
  order unspecified without ORDER BY; the model fixes this one choice.
- `votes.dfy` (`Votes`): the vote toggle.
- `users.dfy` (`Users`): registration, listing, lookup, delete and update.
- `posts.dfy` (`Posts`): listing, lookup, create, delete and update.
- `auth.dfy` (`Auth`): login.

Foreign code is passed in as parameters:

- The password hash is `hash: string -> string`.
- The password check is `verify: (string, string) -> bool`.
- The token encoder is `sign: Claim -> string`.
- Server-generated ids are a `freshId` parameter that must not be in use.

The handlers do less than an owner-based design of this service would. The
model follows the handlers as written:

- Posts have no owner. `create_post` stores only title, content and published.
  `update_post` and `delete_post` do no ownership check, so any authenticated
  caller may change or remove any existing post (`Posts.CallerIsIgnored`).
- `get_posts` has no search, limit or skip. It returns every post.
- `update_user` stores the new password as given, without hashing. It does
  not check the new email against other users (`Users.UpdateUserCanDuplicateEmail`,
  `Auth.UpdateThenLogin`).
- The vote direction is read with Python truthiness: zero means retract, any
  other value means vote.
- The vote retraction deletes every row matching the pair. Votes are therefore
  a multiset, and "one vote per pair" is an invariant the handlers keep.

## Model

| member | source | states |
|---|---|---|
| Votes.Vote | app/routers/vote.py:17-52 | A missing post gives NotFound(post) whatever the direction. Otherwise the request succeeds exactly when the direction flips the state of the caller's (post, caller) row: "up" on an existing row is Conflict and "down" on a missing row is NotFound(vote). On success the caller's row count is 1 after "up" and 0 after "down". Users, posts and every other row are unchanged. |
| Votes.UpThenDownRestores | app/routers/vote.py:33-52 | A successful "up" followed by "down" on the same post gives back exactly the original database. |
| Votes.DownThenUpRestores | app/routers/vote.py:33-52 | Under the one-row-per-pair invariant, a successful "down" followed by "up" gives back exactly the original database. |
| Votes.DownThenUpLosesDuplicates | app/routers/vote.py:49 | Without the invariant the round trip fails: "down" deletes all duplicate rows and "up" restores only one. |
| Votes.RepeatIsRejected | app/routers/vote.py:33-48 | Repeating a successful request is rejected: a second "up" is Conflict, a second "down" is NotFound(vote). |
| Votes.VoteKeepsOneVotePerPair | app/routers/vote.py:33-52 | Every vote transition keeps at most one row per (post, user) pair. |
| Votes.VoteKeepsVotesReferencePosts | app/routers/vote.py:22-42 | A vote row is only ever added for a stored post, so "every vote refers to a stored post" is kept. |
| Votes.OnlyCallersRowMatters | app/routers/vote.py:28-32 | The outcome depends on the vote table only through the (post, caller) row. Rows of other users or other posts cannot change success, the error or the message. |
| Votes.TruthyDirectionsAgree | app/routers/vote.py:33 | Any two non-zero directions give identical results. |
| Votes.Replay | app/routers/vote.py:28-52 | Over any sequence of vote requests, users and posts stay unchanged. A pair's row count is unchanged unless some request in the sequence named that post and caller, so other users' requests never touch a caller's vote. |
| Votes.ReplayKeepsOneVotePerPair | app/routers/vote.py:33-52 | Any sequence of vote requests, from any callers, keeps at most one row per pair. |
| Users.FindByEmail | app/routers/user.py:24 | The lookup finds a user with exactly that email (the lowest such id). It returns nothing exactly when no stored user has that email. |
| Users.FindByEmailUnique | app/routers/auth.py:22-24 | When emails are unique, the lookup by a stored user's email returns that user. |
| Users.FindByEmailOnly | app/routers/auth.py:22-24 | When exactly one stored user has the email, the lookup returns that user, whatever other users' emails are. |
| Users.CreateUser | app/routers/user.py:21-38 | Registration is Conflict exactly when some stored user has the email. Otherwise exactly one user is added under the fresh id, storing hash(password) and not the plaintext. Posts and votes are unchanged. |
| Users.CreateUserKeepsEmailsUnique | app/routers/user.py:24-37 | Registration keeps emails unique across users. |
| Users.ReRegistrationConflicts | app/routers/user.py:24-29 | After a successful registration, registering the same email again (any password) is Conflict and adds no account. |
| Users.GetUsers | app/routers/user.py:46-52 | The listing has one row per stored user, holding that user's record, ordered by id. |
| Users.GetUser | app/routers/user.py:60-73 | NotFound exactly when the id is absent; otherwise the stored record, unchanged. |
| Users.CheckSelf | app/routers/user.py:87-96 | An absent id is NotFound, never Forbidden. An existing id other than the caller is Forbidden. The check passes only for the caller's own existing id. |
| Users.DeleteUser | app/routers/user.py:80-99 | NotFound is checked before Forbidden. A delete succeeds only for the caller's own record and removes exactly that key. Every other user and all posts are unchanged, and the handler itself removes no vote rows. |
| Users.UpdateUser | app/routers/user.py:107-128 | Same error precedence as delete. On success the caller's record becomes the body's email and password as given (no hashing) and the key set is unchanged. Other users, posts and votes are untouched. |
| Users.DeleteThenGetIsNotFound | app/routers/user.py:97-99 | After a user deletes themself, looking them up is NotFound. |
| Users.DeleteUserKeepsEmailsUnique | app/routers/user.py:97 | Deleting a user keeps emails unique. |
| Users.UpdateUserCanDuplicateEmail | app/routers/user.py:114-128 | Update does not check the email: a caller may take another user's email, and emails then stop being unique. |
| Posts.FieldsOf | app/schemas.py:7-9 | A create or update body writes its title and content. `published` is false only when the body says false; an omitted value means true. |
| Posts.GetPosts | app/routers/post.py:15-21 | The listing has one row per stored post, holding that post, ordered by id. There is no filtering or pagination. |
| Posts.GetPost | app/routers/post.py:29-41 | NotFound exactly when the id is absent; otherwise the stored post. |
| Posts.CreatePost | app/routers/post.py:49-59 | Creation always succeeds. It adds exactly one post under the fresh id, carrying the body's title, content and published (default true). Existing posts, users and votes are unchanged. |
| Posts.DeletePost | app/routers/post.py:66-80 | NotFound exactly when the id is absent. Otherwise exactly that post is removed; other posts, users and votes are unchanged. |
| Posts.UpdatePost | app/routers/post.py:88-104 | NotFound exactly when the id is absent. Otherwise all three fields are replaced wholesale, the id and key set stay, the updated post is returned, and nothing else changes. |
| Posts.CallerIsIgnored | app/routers/post.py:15-104 | Every post handler gives the same result for any two callers, so there is no ownership rule. |
| Posts.CreateThenGet | app/routers/post.py:55-59 | A created post reads back with the body's fields. |
| Posts.UpdateThenGet | app/routers/post.py:95-104 | An update is visible to the next read, whoever reads. |
| Posts.UpdateWithoutPublishedRepublishes | app/routers/post.py:102 | An update body without `published` leaves the post published, whatever it was before. |
| Posts.DeleteThenLookupsFail | app/routers/post.py:72-80 | After a delete, get, delete and update of that id are all NotFound. |
| Posts.DeletePostLeavesItsVotes | app/routers/post.py:78 | The handler itself removes no vote rows: after it deletes a voted-on post, the model's vote table refers to a missing post. Whether the database cascades the delete is not modelled. |
| Auth.Login | app/routers/auth.py:16-39 | Every failure is InvalidCredentials, and an unknown email always fails. A token is issued only for a user whose email matches and whose stored password verifies. It carries the claim for that user's id and token type "bearer". With unique emails, login succeeds exactly when such a user exists. |
| Auth.FailuresIndistinguishable | app/routers/auth.py:26-36 | An unknown email, and a known email whose every user rejects the password, give the same result, even when emails are duplicated. |
| Auth.RegisterThenLogin | app/routers/auth.py:22-39 | After registration, logging in with the registered password yields the bearer token for the new id, in any state, including one where other users share emails. This needs a verifier that accepts a password against its own hash. |
| Auth.UpdateThenLogin | app/routers/user.py:126 | After updating one's own record to an email that no other user holds, login with the new password compares it against itself, unhashed. It then succeeds exactly when verify(password, password) holds. If a lower-id user already holds that email, login checks that user instead. |

## Left out

- Token verification, expiry and the current-user dependency (`oauth2`) are
  not part of this model. The caller's id is a parameter, assumed already
  resolved.
- Password hashing, password verification and token encoding (`utils`,
  `oauth2`) are not part of this model. They are function parameters with no
  properties assumed beyond what a lemma's requires states.
- `app/schemas.py` declares only the post bodies. The user body
  (`UserCreate`: email and password) and the vote body (`VoteRequest`: post
  id and an integer `dir`) are inferred from the attributes the handlers
  read (`user.email`, `user.password`, `vote.post_id`, `vote.dir`).
- HTTP status codes, response schemas and messages other than the vote
  messages are not modelled. Errors are an enum. Note that login failure is
  HTTP 403 in the source, not 401.
- Database constraints are not modelled: unique email, the vote primary key,
  and foreign-key cascades. The models behind `app.models` are not part of
  this model. The model shows what the handlers themselves guarantee.
- Sessions, commit/refresh, `synchronize_session`, transactions and
  concurrent requests are not modelled. The model is sequential, and a
  rejected request commits nothing.
- Server-generated ids are not modelled. Creation takes a fresh id as a
  parameter, required only to be absent from the current table. Unlike a
  database serial, this lets a deleted post's or user's id be reused, and
  the new row then meets the vote rows left behind under that id.
- The order of `.all()` and `.first()` without ORDER BY is unspecified in SQL.
  The model fixes ascending id. Under unique emails this choice does not
  affect login or registration. Once `update_user` has duplicated an email,
  login checks the password of the lowest-id user with that email only.
- `app/main.py` (CORS, router wiring, the root route) and the table migration
  are framework plumbing with no handler logic.
