/** The routes mounted behind `authenticateJWT`: creating, editing and
    deleting comments and posts, and the account routes under /users/me.
    The middleware runs first; the handler runs only when it calls next,
    and then acts for the user whose verified claims it attached. */
module Routes {
  import opened Common
  import opened Records
  import opened Http
  import opened Tokens
  import opened Database
  import opened Middleware
  import Comments
  import Posts
  import Users

  /** One protected request: the route and the fields its body and path
      carry (absent body fields are `None`). */
  datatype ProtectedCall =
    | CreateComment(text: Option<string>, postId: Option<int>)
    | UpdateComment(id: int, text: Option<string>)
    | DeleteComment(id: int)
    | CreatePost(title: Option<string>, content: Option<string>, authorId: Option<int>,
                 createdAt: Time, updatedAt: Time)
    | UpdatePost(id: int, title: Option<string>, content: Option<string>, updatedAt: Time)
    | DeletePost(id: int)
    | GetMe
    | PutMe(firstName: Option<string>, lastName: Option<string>, email: Option<string>,
            profilePicture: Option<string>)
    | PutMyPassword(currentPassword: Option<string>, newPassword: Option<string>)
    | DeleteMe
  {
    predicate OnComments() { CreateComment? || UpdateComment? || DeleteComment? }
    predicate OnPosts() { CreatePost? || UpdatePost? || DeletePost? }
    predicate OnAccount() { GetMe? || PutMe? || PutMyPassword? || DeleteMe? }
  }

  /** A protected request, middleware first. A request the middleware
      refuses gets the middleware's response and leaves the store as it
      was. Otherwise the handler runs as the verified caller, with the
      effect its route defines. Across all routes: only the route a call
      names touches its table, a comment disappears only when its author
      deletes it, and the account routes change no user row but the
      caller's own. */
  method Protected(db: Store, req: Request, jwt: Jwt, bcrypt: Bcrypt, now: Time, call: ProtectedCall)
    returns (res: Response)
    requires db.Valid()
    modifies db, req
    ensures db.Valid()
    ensures var a := Authenticate(req.authorization, jwt, now);
      && (a.Halt? ==> res == a.res && res.status in {401, 403} && unchanged(db) && req.user == old(req.user))
      && (a.Pass? ==> req.user == Some(a.user))
    // What no verified request does.
    ensures Authenticate(req.authorization, jwt, now).Pass? ==>
      && db.nextUserId == old(db.nextUserId)
      && (!call.CreateComment? ==> db.nextCommentId == old(db.nextCommentId))
      && (!call.CreatePost? ==> db.nextPostId == old(db.nextPostId))
      && (!call.OnAccount() ==> db.users == old(db.users))
      && (!call.OnPosts() ==> db.posts == old(db.posts))
      && (!call.OnComments() ==> db.comments == old(db.comments))
    ensures var a := Authenticate(req.authorization, jwt, now);
      a.Pass? ==> forall k :: k in old(db.comments) && k !in db.comments ==>
        call.DeleteComment? && call.id == k && old(db.comments)[k].authorId == a.user.id
    ensures var a := Authenticate(req.authorization, jwt, now);
      a.Pass? && call.OnAccount() ==>
        && (forall k :: k in db.users ==> k in old(db.users))
        && (forall k :: k in old(db.users) && k != a.user.id ==> k in db.users && db.users[k] == old(db.users)[k])
    // Each route as the verified caller.
    ensures var a := Authenticate(req.authorization, jwt, now);
      a.Pass? && call.CreateComment? ==>
        if call.text.Some? && call.postId.Some? && call.postId.value in old(db.posts) then
          var c := Comment(old(db.nextCommentId), call.text.value, call.postId.value, a.user.id, now);
          && c.id !in old(db.comments)
          && db.comments == old(db.comments)[c.id := c]
          && db.nextCommentId == old(db.nextCommentId) + 1
          && res == Response(201, CommentJson(c))
        else
          db.comments == old(db.comments) && res == Fail(500, "Failed to create comment")
    ensures var a := Authenticate(req.authorization, jwt, now);
      a.Pass? && call.UpdateComment? ==>
        if call.id in old(db.comments) then
          var c := old(db.comments)[call.id];
          var c' := c.(content := Patch(c.content, call.text));
          db.comments == old(db.comments)[call.id := c'] && res == Ok(CommentJson(c'))
        else
          db.comments == old(db.comments) && res == Fail(500, "Failed to update comment")
    ensures var a := Authenticate(req.authorization, jwt, now);
      a.Pass? && call.DeleteComment? ==>
        if call.id !in old(db.comments) then
          db.comments == old(db.comments) && res == Fail(404, "Comment not found")
        else if old(db.comments)[call.id].authorId != a.user.id then
          db.comments == old(db.comments) && res == Fail(403, "You can only delete your own comments")
        else
          db.comments == old(db.comments) - {call.id} && res == Response(204, NoContent)
    ensures var a := Authenticate(req.authorization, jwt, now);
      a.Pass? && call.CreatePost? ==>
        if call.title.Some? && call.content.Some? then
          var p := Post(old(db.nextPostId), call.title.value, call.content.value, a.user.id,
                        Posts.PublishedByDefault, Posts.ViewableByDefault, call.createdAt, call.updatedAt);
          && p.id !in old(db.posts)
          && db.posts == old(db.posts)[p.id := p]
          && db.nextPostId == old(db.nextPostId) + 1
          && res == Response(201, PostJson(p))
        else
          db.posts == old(db.posts) && res == Fail(500, "Failed to create post")
    ensures var a := Authenticate(req.authorization, jwt, now);
      a.Pass? && call.UpdatePost? ==>
        if call.id in old(db.posts) then
          var p := old(db.posts)[call.id];
          var p' := p.(title := Patch(p.title, call.title), content := Patch(p.content, call.content),
                       updatedAt := call.updatedAt);
          db.posts == old(db.posts)[call.id := p'] && res == Ok(PostJson(p'))
        else
          db.posts == old(db.posts) && res == Fail(500, "Failed to update post")
    ensures var a := Authenticate(req.authorization, jwt, now);
      a.Pass? && call.DeletePost? ==>
        if call.id in old(db.posts) then
          db.posts == old(db.posts) - {call.id} && res == Response(204, NoContent)
        else
          db.posts == old(db.posts) && res == Fail(500, "Failed to delete post")
    ensures var a := Authenticate(req.authorization, jwt, now);
      a.Pass? && call.GetMe? ==> res == Users.Me(old(db.users), a.user) && unchanged(db)
    ensures var a := Authenticate(req.authorization, jwt, now);
      a.Pass? && call.PutMe? ==>
        var id := a.user.id;
        if id in old(db.users) && !(call.email.Some? && Taken(old(db.users) - {id}, Email, call.email.value)) then
          var u := old(db.users)[id];
          var u' := u.(firstName := PatchOptional(u.firstName, call.firstName),
                       lastName := PatchOptional(u.lastName, call.lastName),
                       email := Patch(u.email, call.email),
                       profilePicture := PatchOptional(u.profilePicture, call.profilePicture));
          db.users == old(db.users)[id := u'] && res == Ok(UserJson("Profile updated successfully", u'))
        else
          db.users == old(db.users) && res == Fail(500, "Failed to update profile")
    ensures var a := Authenticate(req.authorization, jwt, now);
      a.Pass? && call.PutMyPassword? ==>
        var id := a.user.id;
        if id !in old(db.users) || call.currentPassword.None? then
          db.users == old(db.users) && res == Fail(500, "Failed to change password")
        else if !bcrypt.compare(call.currentPassword.value, old(db.users)[id].password) then
          db.users == old(db.users) && res == Fail(401, "Current password is incorrect")
        else if call.newPassword.None? then
          db.users == old(db.users) && res == Fail(500, "Failed to change password")
        else
          && db.users == old(db.users)[id := old(db.users)[id].(password := bcrypt.hash(call.newPassword.value))]
          && res == Ok(Message("Password changed successfully"))
          && (Consistent(bcrypt) ==> bcrypt.compare(call.newPassword.value, db.users[id].password))
    ensures var a := Authenticate(req.authorization, jwt, now);
      a.Pass? && call.DeleteMe? ==>
        if a.user.id in old(db.users) then
          db.users == old(db.users) - {a.user.id} && res == Ok(Message("Account deleted successfully"))
        else
          db.users == old(db.users) && res == Fail(500, "Failed to delete account")
  {
    var step := AuthenticateJWT(req, jwt, now);
    if step.Respond? {
      return step.res;
    }
    var caller := req.user.value;
    match call
    case CreateComment(text, postId) =>
      res := Comments.Create(db, caller, text, postId, now);
    case UpdateComment(id, text) =>
      res := Comments.Update(db, id, text);
    case DeleteComment(id) =>
      res := Comments.Delete(db, caller, id);
    case CreatePost(title, content, authorId, createdAt, updatedAt) =>
      res := Posts.Create(db, caller, title, content, authorId, createdAt, updatedAt);
    case UpdatePost(id, title, content, updatedAt) =>
      res := Posts.Update(db, id, title, content, updatedAt);
    case DeletePost(id) =>
      res := Posts.Delete(db, id);
    case GetMe =>
      res := Users.Me(db.users, caller);
    case PutMe(firstName, lastName, email, profilePicture) =>
      res := Users.UpdateMe(db, caller, firstName, lastName, email, profilePicture);
    case PutMyPassword(currentPassword, newPassword) =>
      res := Users.ChangePassword(db, bcrypt, caller, currentPassword, newPassword);
    case DeleteMe =>
      res := Users.DeleteMe(db, caller);
  }
}
