/**
  The post repository (`/posts`): listing, lookup, creation, deletion and
  update.

  Every handler runs for an authenticated caller, but none of them consults
  the caller: there is no owner on a post and no ownership check, so any
  authenticated user may update or delete any existing post.
 */
module Posts {
  import opened Store
  import Rows

  /** The create and update body. `published` may be omitted. */
  datatype PostCreate = PostCreate(title: string, content: string, published: Option<bool>)

  /** The value `published` takes when the body omits it. */
  const DefaultPublished := true

  /** The fields a body writes: all three of them, the default filled in. */
  function FieldsOf(req: PostCreate): (p: Post)
    ensures p.title == req.title && p.content == req.content
    ensures p.published <==> req.published != Some(false)
  {
    Post(req.title, req.content, if req.published.Some? then req.published.value else DefaultPublished)
  }

  /** `get_posts`: every stored post exactly once, in ascending id order; no
      filtering and no pagination. */
  function GetPosts(db: Db, caller: int): (rows: seq<(int, Post)>)
    ensures Rows.IsTableOf(rows, db.posts)
  {
    Rows.Table(db.posts)
  }

  /** `get_post`: the stored post, or NotFound. */
  function GetPost(db: Db, caller: int, id: int): (r: Result<Post>)
    ensures r.Err? <==> id !in db.posts
    ensures r.Err? ==> r.error == NotFound(PostRow)
    ensures r.Ok? ==> r.value == db.posts[id]
  {
    if id !in db.posts then Err(NotFound(PostRow)) else Ok(db.posts[id])
  }

  /** `create_post`: always succeeds and adds exactly one post, under the
      server-chosen `freshId`, carrying the body's fields. */
  function CreatePost(db: Db, caller: int, req: PostCreate, freshId: int): (r: Response<Post>)
    requires freshId !in db.posts
    ensures r.Changed?
    ensures r.value.title == req.title && r.value.content == req.content
    ensures r.value.published <==> req.published != Some(false)
    ensures r.db.posts.Keys == db.posts.Keys + {freshId} && r.db.posts[freshId] == r.value
    ensures forall id :: id in db.posts ==> r.db.posts[id] == db.posts[id]
    ensures r.db.users == db.users && r.db.votes == db.votes
  {
    var post := FieldsOf(req);
    Changed(db.(posts := db.posts[freshId := post]), post)
  }

  /** `delete_post`: NotFound for a missing id; otherwise that post, and only
      that post, is removed. Its vote rows stay in the vote table. */
  function DeletePost(db: Db, caller: int, id: int): (r: Response<()>)
    ensures r.Rejected? <==> id !in db.posts
    ensures r.Rejected? ==> r.error == NotFound(PostRow)
    ensures r.Changed? ==> r.db.posts.Keys == db.posts.Keys - {id}
    ensures r.Changed? ==> forall other :: other in r.db.posts ==> r.db.posts[other] == db.posts[other]
    ensures r.Changed? ==> r.db.users == db.users && r.db.votes == db.votes
  {
    if id !in db.posts then Rejected(NotFound(PostRow))
    else Changed(db.(posts := db.posts - {id}), ())
  }

  /** `update_post`: NotFound for a missing id; otherwise all three fields are
      replaced by the body's, the id stays, and the updated post is returned. */
  function UpdatePost(db: Db, caller: int, id: int, req: PostCreate): (r: Response<Post>)
    ensures r.Rejected? <==> id !in db.posts
    ensures r.Rejected? ==> r.error == NotFound(PostRow)
    ensures r.Changed? ==> r.value.title == req.title && r.value.content == req.content
    ensures r.Changed? ==> (r.value.published <==> req.published != Some(false))
    ensures r.Changed? ==> r.db.posts.Keys == db.posts.Keys && r.db.posts[id] == r.value
    ensures r.Changed? ==> forall other :: other in db.posts && other != id ==> r.db.posts[other] == db.posts[other]
    ensures r.Changed? ==> r.db.users == db.users && r.db.votes == db.votes
  {
    if id !in db.posts then Rejected(NotFound(PostRow))
    else
      var post := FieldsOf(req);
      Changed(db.(posts := db.posts[id := post]), post)
  }

  /** No handler looks at the caller: two callers get the same outcome. */
  lemma CallerIsIgnored(db: Db, c1: int, c2: int, id: int, req: PostCreate, freshId: int)
    requires freshId !in db.posts
    ensures GetPosts(db, c1) == GetPosts(db, c2)
    ensures GetPost(db, c1, id) == GetPost(db, c2, id)
    ensures CreatePost(db, c1, req, freshId) == CreatePost(db, c2, req, freshId)
    ensures DeletePost(db, c1, id) == DeletePost(db, c2, id)
    ensures UpdatePost(db, c1, id, req) == UpdatePost(db, c2, id, req)
  {
  }

  /** A created post reads back with the fields it was created with. */
  lemma CreateThenGet(db: Db, caller: int, reader: int, req: PostCreate, freshId: int)
    requires freshId !in db.posts
    ensures GetPost(CreatePost(db, caller, req, freshId).db, reader, freshId) == Ok(FieldsOf(req))
  {
  }

  /** An update is visible to the next read, by any caller. */
  lemma UpdateThenGet(db: Db, caller: int, reader: int, id: int, req: PostCreate)
    requires id in db.posts
    ensures GetPost(UpdatePost(db, caller, id, req).db, reader, id) == Ok(FieldsOf(req))
  {
  }

  /** An update body that omits `published` publishes the post, whatever it
      was before: the replacement is wholesale. */
  lemma UpdateWithoutPublishedRepublishes(db: Db, caller: int, id: int, title: string, content: string)
    requires id in db.posts
    ensures UpdatePost(db, caller, id, PostCreate(title, content, None)).db.posts[id].published
  {
  }

  /** After a delete the post is NotFound, for every operation that looks it up. */
  lemma DeleteThenLookupsFail(db: Db, caller: int, other: int, id: int, req: PostCreate)
    requires id in db.posts
    ensures var after := DeletePost(db, caller, id).db;
            GetPost(after, other, id) == Err(NotFound(PostRow)) &&
            DeletePost(after, other, id) == Rejected(NotFound(PostRow)) &&
            UpdatePost(after, other, id, req) == Rejected(NotFound(PostRow))
  {
  }

  /** Deleting a post leaves the votes cast on it in the vote table: the
      handler removes the post row only. */
  lemma DeletePostLeavesItsVotes(db: Db, caller: int, id: int, voter: int)
    requires id in db.posts && (id, voter) in db.votes
    ensures !VotesReferencePosts(DeletePost(db, caller, id).db)
  {
  }
}
