/** The post routes: two public reads and three handlers that run behind
    `authenticateJWT`. Of the three, only creation reads `req.user`; update
    and delete compare no author with the caller, whatever their comments
    in the source announce. */
module Posts {
  import opened Common
  import opened Records
  import opened Http
  import opened Tokens
  import opened Database
  import Listing

  /** Column defaults for what creation leaves out; the schema itself is
      not part of this model. */
  const PublishedByDefault := false
  const ViewableByDefault := true

  function CreatedAt(p: Post): int
  {
    p.createdAt
  }

  function Id(p: Post): int
  {
    p.id
  }

  /** GET /posts: every post, newest first; an empty table gives a message
      instead of an empty array. No identity is involved. */
  function List(posts: map<int, Post>): (res: Response)
    requires PostIds(posts)
    ensures posts == map[] <==> res == Ok(Message("No posts yet."))
    ensures posts != map[] ==>
      && res.status == 200 && res.body.PostList?
      && Listing.NewestFirst(res.body.posts, CreatedAt)
      && Listing.ListsTable(res.body.posts, posts, Id)
  {
    var rows := Listing.Listed(posts, CreatedAt);
    Listing.ListedTable(posts, CreatedAt, Id);
    assert (forall k :: k !in posts) ==> posts == map[];
    if |rows| == 0 then Ok(Message("No posts yet.")) else Ok(PostList(rows))
  }

  /** GET /posts/:id */
  function Get(posts: map<int, Post>, id: int): (res: Response)
    ensures id !in posts <==> res == Fail(404, "Post not found")
    ensures id in posts ==> res == Ok(PostJson(posts[id]))
  {
    if id !in posts then Fail(404, "Post not found") else Ok(PostJson(posts[id]))
  }

  /** POST /posts: the author is the authenticated caller; an `authorId` in
      the body is read and ignored. The insert fails (500) when title or
      content is missing. */
  method Create(db: Store, caller: Claims, title: Option<string>, content: Option<string>,
                bodyAuthorId: Option<int>, createdAt: Time, updatedAt: Time)
    returns (res: Response)
    requires db.Valid()
    modifies db
    ensures db.Valid()
    ensures db.users == old(db.users) && db.comments == old(db.comments)
    ensures db.nextUserId == old(db.nextUserId) && db.nextCommentId == old(db.nextCommentId)
    ensures title.Some? && content.Some? ==>
      var p := Post(old(db.nextPostId), title.value, content.value, caller.id,
                    PublishedByDefault, ViewableByDefault, createdAt, updatedAt);
      && p.id !in old(db.posts)
      && db.posts == old(db.posts)[p.id := p]
      && db.nextPostId == old(db.nextPostId) + 1
      && res == Response(201, PostJson(p))
    ensures !(title.Some? && content.Some?) ==>
      && db.posts == old(db.posts) && db.nextPostId == old(db.nextPostId)
      && res == Fail(500, "Failed to create post")
  {
    if title.None? || content.None? {
      return Fail(500, "Failed to create post");
    }
    var p := Post(db.nextPostId, title.value, content.value, caller.id,
                  PublishedByDefault, ViewableByDefault, createdAt, updatedAt);
    db.posts := db.posts[p.id := p];
    db.nextPostId := db.nextPostId + 1;
    res := Response(201, PostJson(p));
  }

  /** PUT /posts/:id: sets title, content and updated_at of that post and
      nothing else; a missing post makes the update throw (500). It takes
      no caller: the handler never reads `req.user`. */
  method Update(db: Store, id: int, title: Option<string>, content: Option<string>, updatedAt: Time)
    returns (res: Response)
    requires db.Valid()
    modifies db
    ensures db.Valid()
    ensures db.users == old(db.users) && db.comments == old(db.comments)
    ensures db.nextUserId == old(db.nextUserId) && db.nextPostId == old(db.nextPostId)
    ensures db.nextCommentId == old(db.nextCommentId)
    ensures id !in old(db.posts) ==>
      db.posts == old(db.posts) && res == Fail(500, "Failed to update post")
    ensures id in old(db.posts) ==>
      var p := old(db.posts)[id];
      var p' := p.(title := Patch(p.title, title), content := Patch(p.content, content), updatedAt := updatedAt);
      && db.posts == old(db.posts)[id := p']
      && res == Ok(PostJson(p'))
  {
    if id !in db.posts {
      return Fail(500, "Failed to update post");
    }
    var p := db.posts[id];
    var p' := p.(title := Patch(p.title, title), content := Patch(p.content, content), updatedAt := updatedAt);
    db.posts := db.posts[id := p'];
    res := Ok(PostJson(p'));
  }

  /** DELETE /posts/:id: removes exactly that post (204); a missing post
      makes the delete throw (500). It takes no caller: the handler never
      reads `req.user`. */
  method Delete(db: Store, id: int) returns (res: Response)
    requires db.Valid()
    modifies db
    ensures db.Valid()
    ensures db.users == old(db.users) && db.comments == old(db.comments)
    ensures db.nextUserId == old(db.nextUserId) && db.nextPostId == old(db.nextPostId)
    ensures db.nextCommentId == old(db.nextCommentId)
    ensures id !in old(db.posts) ==>
      db.posts == old(db.posts) && res == Fail(500, "Failed to delete post")
    ensures id in old(db.posts) ==>
      db.posts == old(db.posts) - {id} && res == Response(204, NoContent)
  {
    if id !in db.posts {
      return Fail(500, "Failed to delete post");
    }
    db.posts := db.posts - {id};
    res := Response(204, NoContent);
  }
}
