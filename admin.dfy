/** The administrator routes. The whole router sits behind
    `authenticateJWT` followed by `isAdmin`. */
module Admin {
  import opened Common
  import opened Records
  import opened Http
  import opened Tokens
  import opened Database
  import opened Middleware
  import Listing
  import Auth

  /** The listing has no order clause; every user ranks the same, so the
      model lists them by ascending id. */
  function Unranked(u: User): int
  {
    0
  }

  /** The summaries of `users` in listing order. */
  function Summaries(users: map<int, User>): (rows: seq<UserSummary>)
  {
    var ks := Listing.OrderedKeys(users, Unranked);
    seq(|ks|, i requires 0 <= i < |ks| => SummaryOf(users[ks[i]]))
  }

  /** Every user is summarised, once, and only users are. */
  lemma SummariesCover(users: map<int, User>)
    requires UserIds(users)
    ensures |Summaries(users)| == |users|
    ensures forall k :: k in users ==> SummaryOf(users[k]) in Summaries(users)
    ensures forall s :: s in Summaries(users) ==> s.id in users && s == SummaryOf(users[s.id])
  {
    var ks := Listing.OrderedKeys(users, Unranked);
    var rows := Summaries(users);
    forall k | k in users ensures SummaryOf(users[k]) in rows {
      var i :| 0 <= i < |ks| && ks[i] == k;
      assert rows[i] == SummaryOf(users[k]);
    }
    forall s | s in rows ensures s.id in users && s == SummaryOf(users[s.id]) {
      var i :| 0 <= i < |rows| && rows[i] == s;
      assert ks[i] in users && users[ks[i]].id == ks[i];
    }
  }

  /** GET /admin/users: id, username, email, role and creation time of
      every user, each once; the summary type has no password field. */
  function ListUsers(users: map<int, User>): (res: Response)
    requires UserIds(users)
    ensures res.status == 200 && res.body.UserSummaries?
    ensures |res.body.users| == |users|
    ensures forall k :: k in users ==> SummaryOf(users[k]) in res.body.users
    ensures forall s :: s in res.body.users ==> s.id in users && s == SummaryOf(users[s.id])
  {
    SummariesCover(users);
    Ok(UserSummaries(Summaries(users)))
  }

  /** DELETE /admin/users/:id: removes exactly that row; a missing row
      makes the delete throw (500). */
  method DeleteUser(db: Store, id: int) returns (res: Response)
    requires db.Valid()
    modifies db
    ensures db.Valid()
    ensures db.posts == old(db.posts) && db.comments == old(db.comments)
    ensures db.nextUserId == old(db.nextUserId) && db.nextPostId == old(db.nextPostId)
    ensures db.nextCommentId == old(db.nextCommentId)
    ensures id !in old(db.users) ==>
      db.users == old(db.users) && res == Fail(500, "Failed to delete user")
    ensures id in old(db.users) ==>
      db.users == old(db.users) - {id} && res == Ok(Message("User deleted successfully"))
  {
    if id !in db.users {
      return Fail(500, "Failed to delete user");
    }
    db.users := db.users - {id};
    res := Ok(Message("User deleted successfully"));
  }

  datatype AdminRequest = ListAll | Remove(id: int)

  /** A request to the administrator router: `authenticateJWT`, then
      `isAdmin`, then the handler. No handler runs, and the store is
      untouched, unless the verified claims carry role "admin". */
  method Route(db: Store, req: Request, jwt: Jwt, now: Time, call: AdminRequest) returns (res: Response)
    requires db.Valid()
    modifies db, req
    ensures db.Valid()
    ensures var a := Authenticate(req.authorization, jwt, now);
      && (a.Pass? ==> req.user == Some(a.user))
      && (a.Halt? ==> req.user == old(req.user))
    ensures var g := AdminGate(req.authorization, jwt, now);
      && (g.Halt? ==> res == g.res && unchanged(db))
      && (g.Pass? ==> g.user.role == Some("admin"))
      && (g.Pass? && call.ListAll? ==> res == ListUsers(old(db.users)) && unchanged(db))
      && (g.Pass? && call.Remove? ==>
            && db.posts == old(db.posts) && db.comments == old(db.comments)
            && db.nextUserId == old(db.nextUserId) && db.nextPostId == old(db.nextPostId)
            && db.nextCommentId == old(db.nextCommentId)
            && (call.id !in old(db.users) ==> db.users == old(db.users) && res == Fail(500, "Failed to delete user"))
            && (call.id in old(db.users) ==>
                  db.users == old(db.users) - {call.id} && res == Ok(Message("User deleted successfully"))))
  {
    var step := AuthenticateJWT(req, jwt, now);
    if step.Respond? {
      return step.res;
    }
    step := IsAdmin(req.user);
    if step.Respond? {
      return step.res;
    }
    match call
    case ListAll =>
      res := ListUsers(db.users);
    case Remove(id) =>
      res := DeleteUser(db, id);
  }

  /** Tokens issued by login carry no role, so every administrator request
      made with one is refused with 403: "Admin privileges required" while
      the token is valid, "Invalid token" once it has expired. */
  lemma LoginTokenRejectedByAdmin(users: map<int, User>, jwt: Jwt, bcrypt: Bcrypt,
                                  email: Option<string>, username: Option<string>, password: Option<string>,
                                  issued: Time, scheme: string, now: Time)
    requires Sound(jwt) && Unique(users, Email) && Unique(users, Username)
    requires ' ' !in scheme
    requires Auth.Login(users, jwt, bcrypt, email, username, password, issued).status == 200
    ensures var token := Auth.Login(users, jwt, bcrypt, email, username, password, issued).body.token;
      var g := AdminGate(Some(scheme + " " + token), jwt, now);
      && g.Halt? && g.res.status == 403
      && (g.res == NotAdmin <==> now < issued + Auth.TokenLifetime)
  {
    var res := Auth.Login(users, jwt, bcrypt, email, username, password, issued);
    var k :| k in users && Auth.Names(users[k], email, username)
             && password.Some? && bcrypt.compare(password.value, users[k].password)
             && res == Ok(LoggedIn(jwt.sign(Auth.LoginClaims(users[k], issued)), LoginViewOf(users[k])));
    SignedTokenAuthenticates(jwt, scheme, Auth.LoginClaims(users[k], issued), now);
  }
}
