/** The comment routes: two public reads and three handlers that run
    behind `authenticateJWT` and receive its claims as `caller`. */
module Comments {
  import opened Common
  import opened Records
  import opened Http
  import opened Tokens
  import opened Database
  import Listing

  function CreatedAt(c: Comment): int
  {
    c.createdAt
  }

  function Id(c: Comment): int
  {
    c.id
  }

  /** GET /comments: every comment, newest first; an empty table gives a
      message instead of an empty array. */
  function List(comments: map<int, Comment>): (res: Response)
    requires CommentIds(comments)
    ensures comments == map[] <==> res == Ok(Message("No comments yet."))
    ensures comments != map[] ==>
      && res.status == 200 && res.body.CommentList?
      && Listing.NewestFirst(res.body.comments, CreatedAt)
      && Listing.ListsTable(res.body.comments, comments, Id)
  {
    var rows := Listing.Listed(comments, CreatedAt);
    Listing.ListedTable(comments, CreatedAt, Id);
    assert (forall k :: k !in comments) ==> comments == map[];
    if |rows| == 0 then Ok(Message("No comments yet.")) else Ok(CommentList(rows))
  }

  /** GET /comments/:id */
  function Get(comments: map<int, Comment>, id: int): (res: Response)
    ensures id !in comments <==> res == Fail(404, "Comment not found")
    ensures id in comments ==> res == Ok(CommentJson(comments[id]))
  {
    if id !in comments then Fail(404, "Comment not found") else Ok(CommentJson(comments[id]))
  }

  /** POST /comments: the author is the authenticated caller. The insert
      fails (500) when content or postId is missing or postId names no
      post. */
  method Create(db: Store, caller: Claims, content: Option<string>, postId: Option<int>, now: Time)
    returns (res: Response)
    requires db.Valid()
    modifies db
    ensures db.Valid()
    ensures db.users == old(db.users) && db.posts == old(db.posts)
    ensures db.nextUserId == old(db.nextUserId) && db.nextPostId == old(db.nextPostId)
    ensures content.Some? && postId.Some? && postId.value in old(db.posts) ==>
      var c := Comment(old(db.nextCommentId), content.value, postId.value, caller.id, now);
      && c.id !in old(db.comments)
      && db.comments == old(db.comments)[c.id := c]
      && db.nextCommentId == old(db.nextCommentId) + 1
      && res == Response(201, CommentJson(c))
    ensures !(content.Some? && postId.Some? && postId.value in old(db.posts)) ==>
      && db.comments == old(db.comments) && db.nextCommentId == old(db.nextCommentId)
      && res == Fail(500, "Failed to create comment")
  {
    if content.None? || postId.None? || postId.value !in db.posts {
      return Fail(500, "Failed to create comment");
    }
    var c := Comment(db.nextCommentId, content.value, postId.value, caller.id, now);
    db.comments := db.comments[c.id := c];
    db.nextCommentId := db.nextCommentId + 1;
    res := Response(201, CommentJson(c));
  }

  /** PUT /comments/:id: sets the content and nothing else. The handler
      does not read `req.user`, so it takes no caller: any authenticated
      request may change any comment. */
  method Update(db: Store, id: int, content: Option<string>) returns (res: Response)
    requires db.Valid()
    modifies db
    ensures db.Valid()
    ensures db.users == old(db.users) && db.posts == old(db.posts)
    ensures db.nextUserId == old(db.nextUserId) && db.nextPostId == old(db.nextPostId)
    ensures db.nextCommentId == old(db.nextCommentId)
    ensures id !in old(db.comments) ==>
      db.comments == old(db.comments) && res == Fail(500, "Failed to update comment")
    ensures id in old(db.comments) ==>
      var c := old(db.comments)[id];
      var c' := c.(content := Patch(c.content, content));
      && db.comments == old(db.comments)[id := c']
      && res == Ok(CommentJson(c'))
  {
    if id !in db.comments {
      return Fail(500, "Failed to update comment");
    }
    var c := db.comments[id];
    var c' := c.(content := Patch(c.content, content));
    db.comments := db.comments[id := c'];
    res := Ok(CommentJson(c'));
  }

  /** DELETE /comments/:id: 404 for a missing comment, then 403 unless the
      caller wrote it (no role is consulted), then the comment is removed
      with 204. */
  method Delete(db: Store, caller: Claims, id: int) returns (res: Response)
    requires db.Valid()
    modifies db
    ensures db.Valid()
    ensures db.users == old(db.users) && db.posts == old(db.posts)
    ensures db.nextUserId == old(db.nextUserId) && db.nextPostId == old(db.nextPostId)
    ensures db.nextCommentId == old(db.nextCommentId)
    ensures id !in old(db.comments) ==>
      db.comments == old(db.comments) && res == Fail(404, "Comment not found")
    ensures id in old(db.comments) && old(db.comments)[id].authorId != caller.id ==>
      db.comments == old(db.comments) && res == Fail(403, "You can only delete your own comments")
    ensures id in old(db.comments) && old(db.comments)[id].authorId == caller.id ==>
      db.comments == old(db.comments) - {id} && res == Response(204, NoContent)
    ensures db.comments != old(db.comments) ==> old(db.comments)[id].authorId == caller.id
  {
    if id !in db.comments {
      return Fail(404, "Comment not found");
    }
    if db.comments[id].authorId != caller.id {
      return Fail(403, "You can only delete your own comments");
    }
    db.comments := db.comments - {id};
    res := Response(204, NoContent);
  }
}
