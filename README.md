# blog-api: authentication gate and REST handlers

This project models the core of `blog-api`, an Express + Prisma blog
back end, and proves properties of that model:

- the `authenticateJWT` and `isAdmin` middleware (`middleware/authMiddleware.js`);
- the comment, post, user-account, registration/login and administrator
  routes (`routes/comments.js`, `routes/posts.js`, `routes/users.js`,
  `routes/auth.js`, `routes/admin.js`).

The database is a `Store` object holding three tables. Each table is a map
from an integer id to a `User`, `Post` or `Comment` record. The store also
holds the three auto-increment counters. `Store.Valid()` is the schema
invariant the handlers keep:

- each row sits under its own id;
- every id is below its counter;
- `email` and `username` are unique.

Read-only handlers are functions from the tables to a `Response`, which is
an HTTP status plus a body. Handlers that write are methods that change
the store in place and state its whole new state.

The JSON Web Token and bcrypt libraries are oracles: records of functions
passed in as parameters.

- `Tokens.Sound` is the one property assumed of signing: a token the
  server signed decodes to its own claims, is not empty and contains no
  space.
- `jwt.verify` is modelled by `Tokens.Verify`. It returns the decoded
  claims, or nothing when the token is missing or empty, does not decode,
  or `now >= exp`.
- `Tokens.Consistent` is the one property assumed of bcrypt:
  `compare(p, hash(p))` holds.

The clock enters as a `now` parameter.

Module layout:

- `Common`: `Option`, the JavaScript truthiness of a header, and the
  Prisma rule that an `undefined` field leaves a column as it was.
- `Records`: the three rows and the projections the routes `select`.
- `Http`: response bodies and statuses.
- `Tokens`: claims and the two oracles.
- `Listing`: ordering a table by a rank, with ties broken by ascending id.
- `Database`: unique-column lookup and the `Store` class.
- `Middleware`: the token gate, the admin check and the `Request` object.
- `Comments`, `Posts`, `Users`, `Auth`, `Admin`: the route handlers.
- `Routes`: each protected route, running the middleware and then its
  handler.

Where the code departs from its own route comments and from a usual
authorization design, the model follows the code:

- Editing or deleting a post checks no ownership (`routes/posts.js:86-115`),
  although the route comments say the caller must be the author.
- Editing a comment checks no ownership either (`routes/comments.js:78-92`).
  Deleting a comment does check it.
- No administrator bypass exists anywhere. The only role check is
  `isAdmin` on the `/admin` router.
- Login tokens carry only `id` and `username`, never a role
  (`routes/auth.js:63-68`). So no token the application issues passes
  `isAdmin` (`Admin.LoginTokenRejectedByAdmin`).

## Model

| member | source | states |
|---|---|---|
| Records.ProjectionsIgnorePassword | routes/users.js:19-27 | the public profile, the login view and the admin summary are the same whatever the stored password hash is |
| Records.ProfileOf | routes/users.js:19-27 | the public profile carries the row's id, first and last name, username, email, picture and creation time |
| Records.LoginViewOf | routes/auth.js:70-79 | the login view carries the row's id, username, email, first and last name and picture |
| Records.SummaryOf | routes/admin.js:14-22 | the admin summary carries the row's id, username, email, role and creation time |
| Records.ProjectionColumns | routes/users.js:19-27 | two users give the same projection exactly when they agree on its selected columns, so the password hash never shows |
| Tokens.Verify | middleware/authMiddleware.js:17 | verification yields claims exactly when a non-empty token is present, decodes, and has not reached its expiry; the claims are the decoded ones |
| Tokens.SignedTokenVerifies | middleware/authMiddleware.js:17 | a token the server signed verifies to exactly its claims before expiry and to nothing from expiry on |
| Tokens.ExpiryIsFinal | middleware/authMiddleware.js:17 | once a token has expired it stays expired; a token without `exp` never expires |
| Listing.FirstExists | routes/posts.js:9-22 | every non-empty table has a row that comes first under the ordering |
| Listing.FirstUnique | routes/posts.js:9-22 | that first row is unique |
| Listing.PrependFirst | routes/posts.js:9-22 | the first row put before an ordered listing of the rest orders the whole table |
| Listing.OrderedKeys | routes/posts.js:19-21 | the keys listed hold each key of the table exactly once, higher rank first, ties by ascending id |
| Listing.RowsInOrder | routes/posts.js:9-22 | the rows at the ordered keys are every row of the table once and nothing else, ranks never increasing |
| Listing.Listed | routes/posts.js:9-22 | a listing holds as many rows as the table, every row of the table, nothing else, and ranks do not increase |
| Listing.ListedTable | routes/posts.js:9-22 | listing a table whose rows sit under their own ids gives every row once and nothing else, highest rank first |
| Database.FindUnique | routes/auth.js:47-51 | `findUnique` on a unique column finds nothing exactly when no row holds the value, and otherwise the row that holds it |
| Database.Store.constructor | routes/auth.js:23-32 | an empty store, every counter at 1, satisfies the schema invariant that each insert keeps |
| Middleware.Split | middleware/authMiddleware.js:13 | `split(" ")` gives at least one piece; the pieces joined with the separator give back the string; no piece contains the separator |
| Middleware.SplitNoSeparator | middleware/authMiddleware.js:13 | a string without the separator splits into itself alone |
| Middleware.SplitAtFirst | middleware/authMiddleware.js:13 | splitting at the first separator gives the part before it, then the split of the rest |
| Middleware.TokenAfterScheme | middleware/authMiddleware.js:13 | from `<scheme> <token>` the second piece is the token, whatever the scheme word |
| Middleware.NoSpaceNoToken | middleware/authMiddleware.js:13 | a header without a space yields no token |
| Middleware.BearerToken | middleware/authMiddleware.js:13 | there is no token exactly when the header has no space; a token never holds a space |
| Middleware.TokenIsSecondPiece | middleware/authMiddleware.js:13 | the token is the text between the first and second space, or everything after the first space when there is no second, whatever the scheme word |
| Middleware.TokenExamples | middleware/authMiddleware.js:13 | `"Bearer tok junk"` yields `"tok"`, and `"Bearer  tok"` yields the empty token |
| Middleware.Authenticate | middleware/authMiddleware.js:4-23 | 401 "No token provided" exactly when the header is missing or empty; pass exactly when the second header piece verifies, with the verified claims; every other case is 403 "Invalid token" |
| Middleware.Request.constructor | middleware/authMiddleware.js:6 | a request carries its header and no user yet |
| Middleware.AuthenticateJWT | middleware/authMiddleware.js:4-23 | the middleware either responds, leaving `req.user` unchanged, or calls next after setting `req.user` to the verified claims, as `Authenticate` decides |
| Middleware.IsAdmin | middleware/authMiddleware.js:25-32 | next exactly when a user is attached and its role claim is "admin"; otherwise 403 "Admin privileges required", also with no user |
| Middleware.AdminGate | routes/admin.js:9 | the admin router admits exactly the verified claims with role "admin"; a missing header is 401, and every other refusal is "Invalid token" or "Admin privileges required" |
| Middleware.SignedTokenAuthenticates | middleware/authMiddleware.js:4-23 | a server-signed token after any scheme word authenticates with exactly its claims until it expires, then gets 403 |
| Middleware.BareTokenRejected | middleware/authMiddleware.js:13-21 | a bare token without a scheme word gets 403 |
| Middleware.EmptyTokenRejected | middleware/authMiddleware.js:13-21 | a header of a scheme word and a space carries the empty token, which gets 403 |
| Comments.List | routes/comments.js:7-27 | "No comments yet." exactly when the table is empty; otherwise every comment once, newest first |
| Comments.Get | routes/comments.js:30-49 | 404 "Comment not found" exactly when the id is missing; otherwise the stored comment |
| Comments.Create | routes/comments.js:52-75 | with content and an existing post, the new comment gets the next id and the caller as author and is returned with 201; otherwise 500 and nothing changes |
| Comments.Update | routes/comments.js:78-92 | a missing id is 500 and changes nothing; otherwise only that comment's content is patched |
| Comments.Delete | routes/comments.js:95-123 | 404 when missing, 403 when the caller is not the author, otherwise 204 and exactly that comment removed; any removal was by its author |
| Posts.List | routes/posts.js:7-31 | "No posts yet." exactly when the table is empty; otherwise every post once, newest first |
| Posts.Get | routes/posts.js:34-56 | 404 "Post not found" exactly when the id is missing; otherwise the stored post |
| Posts.Create | routes/posts.js:59-83 | with title and content (and the dates taken as given), the new post gets the next id, the caller as author whatever the body says, and the schema defaults, and is returned with 201; otherwise 500 and nothing changes |
| Posts.Update | routes/posts.js:86-102 | a missing id is 500 and changes nothing; otherwise title and content are patched and the given update time set |
| Posts.Delete | routes/posts.js:105-115 | a missing id is 500; otherwise 204 and exactly that post removed |
| Users.Profile | routes/users.js:13-37 | 404 "User not found" exactly when the id is missing; otherwise the public profile |
| Users.ProfileHidesPassword | routes/users.js:19-27 | the profile response does not depend on the password hash |
| Users.PublishedBy | routes/users.js:43-46 | the selected rows are exactly that author's published posts, as stored |
| Users.PublishedRows | routes/users.js:43-46 | the listing holds only published posts by that author, and all of them |
| Users.PostsOf | routes/users.js:40-51 | 200 with exactly the author's published posts, newest first, and an empty list when there are none |
| Users.Me | routes/users.js:53-71 | 200 with the caller's public profile, or `null` when the caller's row is gone |
| Users.UpdateMe | routes/users.js:74-90 | 500 when the caller's row is gone or the new email belongs to another user; otherwise only the caller's row is patched and echoed |
| Users.ChangePassword | routes/users.js:93-110 | 500 when the row or a password is missing; 401 when the current password does not match; otherwise the new hash is stored and then matches the new password |
| Users.DeleteMe | routes/users.js:112-119 | 500 when the caller's row is gone; otherwise exactly that row is removed |
| Auth.LoginClaims | routes/auth.js:63-68 | login claims carry id and username, no role, and expire exactly 24 hours after issue |
| Auth.Names | routes/auth.js:47-53 | with a non-empty email a row is named exactly when its email matches, whatever the username; otherwise exactly when a non-empty username matches its username |
| Auth.NamesAtMostOne | routes/auth.js:47-51 | with email and username unique, a login request names at most one row |
| Auth.LoginPrefersEmail | routes/auth.js:47-53 | with a non-empty email the login answer does not depend on the username; without one it does not depend on the (empty or missing) email |
| Auth.Register | routes/auth.js:10-40 | with password, username and email present and both unique, a user with the next id, the hashed password, the given or default picture and role "user" is stored and returned with 201, and the stored hash matches the password; otherwise 500 "Registration failed" and nothing changes |
| Auth.Login | routes/auth.js:43-86 | 400 exactly when neither email nor username is given; 401 "Invalid credentials" exactly when no user is named; then 500, 401 "Password is incorrect", or a token signed over that user's login claims with the login view |
| Admin.SummariesCover | routes/admin.js:14-22 | the summaries cover every user exactly once and nothing else |
| Admin.ListUsers | routes/admin.js:12-28 | 200 with a summary of every user and nothing else; the summary has no password field |
| Admin.DeleteUser | routes/admin.js:31-40 | 500 when the id is missing; otherwise exactly that user is removed |
| Admin.Route | routes/admin.js:9-40 | without verified admin claims the middleware's response is returned and the store is unchanged; with them, the listing is answered with nothing changed, or the delete removes exactly that user, touching no other table and no counter |
| Admin.LoginTokenRejectedByAdmin | routes/auth.js:63-68 | every token login issues is refused by the admin router with 403: "Admin privileges required" while valid, "Invalid token" once expired |
| Routes.Protected | routes/comments.js:52-123 | a request refused by `authenticateJWT` changes nothing; otherwise each route has its handler's effect as the verified caller (the comment, post and `/users/me` routes alike); only the named route's table and counter change, a comment disappears only when its author deletes it, and account routes change only the caller's row |

## Left out

- Signature cryptography and bcrypt hashing are oracles. The model assumes
  only `Tokens.Sound` and `Tokens.Consistent`. The salt randomness of
  `bcrypt.hash(…, 10)` is not modelled.
- The `JWT_SECRET` environment variable is folded into the token oracle.
- A decoded token is assumed to carry an integer `id`. Claims of any other
  shape are not modelled.
- `Number(id)` parsing of path parameters is not modelled. Handlers take
  the integer id directly; a non-numeric id is not modelled.
- `new Date(...)` parsing is not modelled. Post timestamps enter as `Time`
  values. An unparsable date, and an ABSENT `created_at` or `updated_at`
  (which gives `new Date(undefined)`, an invalid date that the store
  rejects, so the route answers 500), are not modelled.
- Posts.Create: a request without `created_at` or `updated_at` is modelled
  as succeeding with the given times; the source answers 500
  (`routes/posts.js:67-68`), because the dates are taken as given here.
- Posts.Update: likewise a request without `updated_at` is modelled as
  succeeding; the source answers 500 (`routes/posts.js:95`).
- Body fields are modelled as absent or as a value of the expected type
  (a string; an integer for `postId`). An explicit JSON `null` is not
  modelled: the store would write NULL into a nullable column (such as
  `first_name` on PUT /users/me, or `profile_picture` on register, where
  it would also skip the default) and reject it for a required column
  (such as `content` or `title`), giving 500. Values of other JSON types
  are not modelled either.
- Database connection failures on reads are not modelled. Those are the
  500 responses "Failed to fetch …".
- The `include`/`select` joins that attach author, post and comments to a
  listed row are not modelled. The responses carry the rows themselves.
- Foreign-key checks and cascades are not modelled, except that a comment
  needs an existing post. Deleting a user or post leaves their comments
  and posts in their tables.
- Schema defaults come from the database schema, which is not part of this
  model. The model uses `published` false, `viewable` true and role
  "user"; the default profile picture is a parameter of `Auth.Register`.
- Auth.Login: the second `res.json` after a successful login throws once
  headers are sent. Its effect is not modelled; the first response is the
  one modelled.
- Auth.Register: the required first and last name columns of the schema
  are not modelled; their absence is not treated as a failure.
- Routes.Protected: the route table, Express dispatch and the fact that
  `GET /users/me` is shadowed by `GET /users/:id` are not modelled. Each
  protected handler is reached directly after the middleware.
- `app.js`, `routes/index.js` (mounting) and `prisma/seed.js` (sample
  data) are not part of this model.
- Concurrency between requests is not modelled. Handlers run one at a
  time on the store.
