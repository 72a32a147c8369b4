/** The user routes: two public reads by id, and the `/me` handlers, which
    run behind `authenticateJWT` and address only the row whose id is the
    caller's `id` claim. */
module Users {
  import opened Common
  import opened Records
  import opened Http
  import opened Tokens
  import opened Database
  import Listing
  import Posts

  /** GET /users/:id: the public profile, which has no password field. */
  function Profile(users: map<int, User>, id: int): (res: Response)
    ensures id !in users <==> res == Fail(404, "User not found")
    ensures id in users ==> res == Ok(ProfileJson(ProfileOf(users[id])))
  {
    if id !in users then Fail(404, "User not found") else Ok(ProfileJson(ProfileOf(users[id])))
  }

  /** A user's password hash never shows in the public profile: two stores
      that differ only in that hash give the same answer. */
  lemma ProfileHidesPassword(users: map<int, User>, id: int, hash: string)
    requires id in users
    ensures Profile(users[id := users[id].(password := hash)], id) == Profile(users, id)
  {
    ProjectionsIgnorePassword(users[id], hash);
  }

  /** The posts that GET /users/:id/posts selects. */
  function PublishedBy(posts: map<int, Post>, id: int): (mine: map<int, Post>)
    ensures forall k :: k in mine <==> k in posts && posts[k].authorId == id && posts[k].published
    ensures forall k :: k in mine ==> mine[k] == posts[k]
  {
    map k | k in posts && posts[k].authorId == id && posts[k].published :: posts[k]
  }

  lemma PublishedRows(posts: map<int, Post>, id: int, rows: seq<Post>)
    requires Listing.ListsTable(rows, PublishedBy(posts, id), Posts.Id)
    ensures forall p :: p in rows ==> p.authorId == id && p.published && p.id in posts && posts[p.id] == p
    ensures forall k :: k in posts && posts[k].authorId == id && posts[k].published ==> posts[k] in rows
  {
    var mine := PublishedBy(posts, id);
    forall k | k in posts && posts[k].authorId == id && posts[k].published ensures posts[k] in rows {
      assert k in mine;
    }
    forall p | p in rows ensures p.authorId == id && p.published && p.id in posts && posts[p.id] == p {
      var i :| 0 <= i < |rows| && rows[i] == p;
      assert p.id in mine && mine[p.id] == p;
    }
  }

  /** GET /users/:id/posts: the published posts of that author, newest
      first; an empty list is answered as it is, without a message. */
  function PostsOf(posts: map<int, Post>, id: int): (res: Response)
    requires PostIds(posts)
    ensures res.status == 200 && res.body.PostList?
    ensures Listing.NewestFirst(res.body.posts, Posts.CreatedAt)
    ensures forall p :: p in res.body.posts ==>
      p.authorId == id && p.published && p.id in posts && posts[p.id] == p
    ensures forall k :: k in posts && posts[k].authorId == id && posts[k].published ==>
      posts[k] in res.body.posts
    ensures |res.body.posts| == |PublishedBy(posts, id)|
  {
    var mine := PublishedBy(posts, id);
    var rows := Listing.Listed(mine, Posts.CreatedAt);
    Listing.ListedTable(mine, Posts.CreatedAt, Posts.Id);
    PublishedRows(posts, id, rows);
    Ok(PostList(rows))
  }

  /** GET /users/me (unreachable behind GET /users/:id, modelled as
      written): the caller's profile, or null when the row is gone. */
  function Me(users: map<int, User>, caller: Claims): (res: Response)
    ensures res.status == 200
    ensures caller.id in users ==> res.body == NullableProfile(Some(ProfileOf(users[caller.id])))
    ensures caller.id !in users ==> res.body == NullableProfile(None)
  {
    Ok(NullableProfile(if caller.id in users then Some(ProfileOf(users[caller.id])) else None))
  }

  /** PUT /users/me: writes the four profile columns given in the body into
      the caller's row; username, password and role are left alone, and so
      is every other row. Fails (500) when the row is gone or the new email
      belongs to another user. */
  method UpdateMe(db: Store, caller: Claims, firstName: Option<string>, lastName: Option<string>,
                  email: Option<string>, profilePicture: Option<string>)
    returns (res: Response)
    requires db.Valid()
    modifies db
    ensures db.Valid()
    ensures db.posts == old(db.posts) && db.comments == old(db.comments)
    ensures db.nextUserId == old(db.nextUserId) && db.nextPostId == old(db.nextPostId)
    ensures db.nextCommentId == old(db.nextCommentId)
    ensures var id := caller.id;
      var ok := id in old(db.users) && !(email.Some? && Taken(old(db.users) - {id}, Email, email.value));
      && (!ok ==> db.users == old(db.users) && res == Fail(500, "Failed to update profile"))
      && (ok ==>
            var u := old(db.users)[id];
            var u' := u.(firstName := PatchOptional(u.firstName, firstName),
                         lastName := PatchOptional(u.lastName, lastName),
                         email := Patch(u.email, email),
                         profilePicture := PatchOptional(u.profilePicture, profilePicture));
            && db.users == old(db.users)[id := u']
            && res == Ok(UserJson("Profile updated successfully", u')))
  {
    var id := caller.id;
    if id !in db.users || (email.Some? && Taken(db.users - {id}, Email, email.value)) {
      return Fail(500, "Failed to update profile");
    }
    var before := db.users;
    var u := before[id];
    var u' := u.(firstName := PatchOptional(u.firstName, firstName),
                 lastName := PatchOptional(u.lastName, lastName),
                 email := Patch(u.email, email),
                 profilePicture := PatchOptional(u.profilePicture, profilePicture));
    forall k | k in before && k != id ensures before[k].email != u'.email {
      if email.Some? {
        assert k in before - {id};
      }
    }
    db.users := before[id := u'];
    res := Ok(UserJson("Profile updated successfully", u'));
  }

  /** PUT /users/me/password: compares the current password with the
      stored hash and, on a match, stores the hash of the new one. A wrong
      current password gives 401 and changes nothing. A missing row or a
      missing password makes bcrypt or the row access throw (500). */
  method ChangePassword(db: Store, bcrypt: Bcrypt, caller: Claims,
                        currentPassword: Option<string>, newPassword: Option<string>)
    returns (res: Response)
    requires db.Valid()
    modifies db
    ensures db.Valid()
    ensures db.posts == old(db.posts) && db.comments == old(db.comments)
    ensures db.nextUserId == old(db.nextUserId) && db.nextPostId == old(db.nextPostId)
    ensures db.nextCommentId == old(db.nextCommentId)
    ensures var id := caller.id;
      && (id !in old(db.users) || currentPassword.None? ==>
            db.users == old(db.users) && res == Fail(500, "Failed to change password"))
      && (id in old(db.users) && currentPassword.Some? &&
          !bcrypt.compare(currentPassword.value, old(db.users)[id].password) ==>
            db.users == old(db.users) && res == Fail(401, "Current password is incorrect"))
      && (id in old(db.users) && currentPassword.Some? &&
          bcrypt.compare(currentPassword.value, old(db.users)[id].password) ==>
            if newPassword.None? then
              db.users == old(db.users) && res == Fail(500, "Failed to change password")
            else
              && db.users == old(db.users)[id := old(db.users)[id].(password := bcrypt.hash(newPassword.value))]
              && res == Ok(Message("Password changed successfully"))
              && (Consistent(bcrypt) ==> bcrypt.compare(newPassword.value, db.users[id].password)))
  {
    var id := caller.id;
    if id !in db.users || currentPassword.None? {
      return Fail(500, "Failed to change password");
    }
    var user := db.users[id];
    if !bcrypt.compare(currentPassword.value, user.password) {
      return Fail(401, "Current password is incorrect");
    }
    if newPassword.None? {
      return Fail(500, "Failed to change password");
    }
    var hashed := bcrypt.hash(newPassword.value);
    db.users := db.users[id := user.(password := hashed)];
    res := Ok(Message("Password changed successfully"));
  }

  /** DELETE /users/me: removes the caller's row and no other; a missing
      row makes the delete throw (500). */
  method DeleteMe(db: Store, caller: Claims) returns (res: Response)
    requires db.Valid()
    modifies db
    ensures db.Valid()
    ensures db.posts == old(db.posts) && db.comments == old(db.comments)
    ensures db.nextUserId == old(db.nextUserId) && db.nextPostId == old(db.nextPostId)
    ensures db.nextCommentId == old(db.nextCommentId)
    ensures caller.id !in old(db.users) ==>
      db.users == old(db.users) && res == Fail(500, "Failed to delete account")
    ensures caller.id in old(db.users) ==>
      db.users == old(db.users) - {caller.id} && res == Ok(Message("Account deleted successfully"))
  {
    if caller.id !in db.users {
      return Fail(500, "Failed to delete account");
    }
    db.users := db.users - {caller.id};
    res := Ok(Message("Account deleted successfully"));
  }
}
