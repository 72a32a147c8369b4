/** Registration and login: the two routes that do not require a token,
    and the only place tokens are issued. */
module Auth {
  import opened Common
  import opened Records
  import opened Http
  import opened Tokens
  import opened Database

  /** `expiresIn: "24h"`, in seconds. */
  const TokenLifetime := 24 * 60 * 60

  /** The role a new row gets from the column default. */
  const DefaultRole := "user"

  /** The payload login signs: `{ id, username }`, to which jsonwebtoken
      adds `iat` and, from `expiresIn`, `exp`. There is no role claim. */
  function LoginClaims(u: User, now: Time): (c: Claims)
    ensures c.id == u.id && c.username == u.username && c.role == None
    ensures c.exp == Some(now + TokenLifetime)
    ensures forall t :: Expired(c, t) <==> t >= now + TokenLifetime
  {
    Claims(u.id, u.username, None, Some(now), Some(now + TokenLifetime))
  }

  /** POST /auth/register: stores a new row whose password column is the
      bcrypt hash of the given password, and answers 201 with that row.
      Hashing a missing password throws, and the insert throws for a
      missing or already used username or email; each gives 500. An
      absent profile picture takes the column default `pictureDefault`,
      whose value the database schema fixes. */
  method Register(db: Store, bcrypt: Bcrypt, firstName: Option<string>, lastName: Option<string>,
                  username: Option<string>, email: Option<string>, password: Option<string>,
                  profilePicture: Option<string>, pictureDefault: Option<string>, now: Time)
    returns (res: Response)
    requires db.Valid()
    modifies db
    ensures db.Valid()
    ensures db.posts == old(db.posts) && db.comments == old(db.comments)
    ensures db.nextPostId == old(db.nextPostId) && db.nextCommentId == old(db.nextCommentId)
    ensures var ok := password.Some? && username.Some? && email.Some?
                      && !Taken(old(db.users), Username, username.value)
                      && !Taken(old(db.users), Email, email.value);
      && (!ok ==> db.users == old(db.users) && db.nextUserId == old(db.nextUserId)
                  && res == Fail(500, "Registration failed"))
      && (ok ==>
            var u := User(old(db.nextUserId), username.value, email.value, bcrypt.hash(password.value),
                          firstName, lastName, PatchOptional(pictureDefault, profilePicture), DefaultRole, now);
            && u.id !in old(db.users)
            && db.users == old(db.users)[u.id := u]
            && db.nextUserId == old(db.nextUserId) + 1
            && res == Response(201, UserJson("User registered successfully", u))
            && (Consistent(bcrypt) ==> bcrypt.compare(password.value, u.password)))
  {
    if password.None? {
      return Fail(500, "Registration failed");
    }
    var hashed := bcrypt.hash(password.value);
    if username.None? || email.None?
       || Taken(db.users, Username, username.value) || Taken(db.users, Email, email.value) {
      return Fail(500, "Registration failed");
    }
    var u := User(db.nextUserId, username.value, email.value, hashed,
                  firstName, lastName, PatchOptional(pictureDefault, profilePicture), DefaultRole, now);
    db.users := db.users[u.id := u];
    db.nextUserId := db.nextUserId + 1;
    res := Response(201, UserJson("User registered successfully", u));
  }

  /** The row a login request names: by email when the body has a
      non-empty email, otherwise by username. */
  predicate Names(u: User, email: Option<string>, username: Option<string>): (b: bool)
    ensures b ==> Truthy(email) || Truthy(username)
    ensures Truthy(email) ==> (b <==> u.email == email.value)
    ensures !Truthy(email) && Truthy(username) ==> (b <==> u.username == username.value)
  {
    if Truthy(email) then u.email == email.value
    else Truthy(username) && u.username == username.value
  }

  /** With email and username unique, a login request names at most one
      row, so the lookup is a `findUnique`. */
  lemma NamesAtMostOne(users: map<int, User>, email: Option<string>, username: Option<string>, a: int, b: int)
    requires Unique(users, Email) && Unique(users, Username)
    requires a in users && b in users
    requires Names(users[a], email, username) && Names(users[b], email, username)
    ensures a == b
  {
    if Truthy(email) {
      assert ColumnOf(users[a], Email) == ColumnOf(users[b], Email);
    } else {
      assert ColumnOf(users[a], Username) == ColumnOf(users[b], Username);
    }
  }

  /** POST /auth/login: 400 when neither email nor username is given,
      before any lookup; 401 "Invalid credentials" when no row matches;
      500 when the password is missing (bcrypt throws); 401 "Password is
      incorrect" when it does not match the stored hash; otherwise a token
      for LoginClaims(u, now) and the user without the password. */
  function Login(users: map<int, User>, jwt: Jwt, bcrypt: Bcrypt,
                 email: Option<string>, username: Option<string>, password: Option<string>, now: Time)
    : (res: Response)
    requires Unique(users, Email) && Unique(users, Username)
    ensures !Truthy(email) && !Truthy(username) <==> res == Fail(400, "Email or username required")
    ensures res == Fail(401, "Invalid credentials") <==>
      (Truthy(email) || Truthy(username)) && forall k :: k in users ==> !Names(users[k], email, username)
    ensures forall k :: k in users && Names(users[k], email, username) ==>
      var u := users[k];
      && (password.None? <==> res == Fail(500, "Login failed"))
      && (password.Some? && !bcrypt.compare(password.value, u.password) <==>
            res == Fail(401, "Password is incorrect"))
      && (password.Some? && bcrypt.compare(password.value, u.password) <==>
            res == Ok(LoggedIn(jwt.sign(LoginClaims(u, now)), LoginViewOf(u))))
    ensures res.status == 200 ==>
      exists k :: (k in users && Names(users[k], email, username)
                   && password.Some? && bcrypt.compare(password.value, users[k].password)
                   && res == Ok(LoggedIn(jwt.sign(LoginClaims(users[k], now)), LoginViewOf(users[k]))))
  {
    var found :=
      if Truthy(email) then FindUnique(users, Email, email.value)
      else if Truthy(username) then FindUnique(users, Username, username.value)
      else None;
    if !Truthy(email) && !Truthy(username) then Fail(400, "Email or username required")
    else if found.None? then Fail(401, "Invalid credentials")
    else if password.None? then Fail(500, "Login failed")
    else if !bcrypt.compare(password.value, found.value.password) then Fail(401, "Password is incorrect")
    else Ok(LoggedIn(jwt.sign(LoginClaims(found.value, now)), LoginViewOf(found.value)))
  }

  /** A non-empty email decides the lookup on its own: the username is
      then ignored. Without one, the username decides, and an empty email
      counts as none. */
  lemma LoginPrefersEmail(users: map<int, User>, jwt: Jwt, bcrypt: Bcrypt,
                          email: Option<string>, username: Option<string>, password: Option<string>, now: Time)
    requires Unique(users, Email) && Unique(users, Username)
    ensures Truthy(email) ==>
      Login(users, jwt, bcrypt, email, username, password, now) == Login(users, jwt, bcrypt, email, None, password, now)
    ensures !Truthy(email) ==>
      Login(users, jwt, bcrypt, email, username, password, now) == Login(users, jwt, bcrypt, None, username, password, now)
  {
  }
}
