/** The two middleware functions that guard the routes: `authenticateJWT`,
    which turns the Authorization header into `req.user`, and `isAdmin`,
    which lets only an administrator through. A middleware either answers
    (Respond) or hands the request on (Next); the `Outcome` type admits no
    third way and no way of doing both. */
module Middleware {
  import opened Common
  import opened Http
  import opened Tokens

  datatype Outcome = Next | Respond(res: Response)

  /** The result of `authenticateJWT` as a value: the claims that become
      `req.user`, or the response sent instead. */
  datatype Gate = Pass(user: Claims) | Halt(res: Response)

  const NoToken := Fail(401, "No token provided")
  const InvalidToken := Fail(403, "Invalid token")
  const NotAdmin := Fail(403, "Admin privileges required")

  // ---------------------------------------------------------------------
  // Extracting the token: `authHeader.split(" ")[1]`

  function Join(parts: seq<string>, sep: char): string
    requires |parts| >= 1
  {
    if |parts| == 1 then parts[0] else parts[0] + [sep] + Join(parts[1..], sep)
  }

  /** JavaScript's `s.split(sep)` for a one-character separator: the pieces
      between consecutive separators, empty pieces included. The pieces
      rejoin to `s` and none holds the separator, which determines them. */
  function Split(s: string, sep: char): (parts: seq<string>)
    ensures |parts| >= 1
    ensures Join(parts, sep) == s
    ensures forall i :: 0 <= i < |parts| ==> sep !in parts[i]
    decreases |s|
  {
    if s == [] then [[]]
    else
      var rest := Split(s[1..], sep);
      if s[0] == sep then
        assert [sep] + s[1..] == s;
        [[]] + rest
      else
        var parts := [[s[0]] + rest[0]] + rest[1..];
        assert |rest| > 1 ==> Join(rest, sep) == rest[0] + [sep] + Join(rest[1..], sep);
        assert parts[1..] == rest[1..];
        assert [s[0]] + s[1..] == s;
        parts
  }

  /** The second space-separated piece of the header, or None (undefined)
      when the header has no space. The first piece, the scheme word, is
      not looked at; the token itself holds no space. */
  function BearerToken(header: string): (t: Option<string>)
    ensures t.None? <==> ' ' !in header
    ensures t.Some? ==> ' ' !in t.value
  {
    var parts := Split(header, ' ');
    assert |parts| >= 2 ==> header == parts[0] + [' '] + Join(parts[1..], ' ')
                            && header[|parts[0]|] == ' ';
    if |parts| >= 2 then Some(parts[1]) else None
  }

  lemma {:induction false} SplitNoSeparator(s: string, sep: char)
    requires sep !in s
    ensures Split(s, sep) == [s]
    decreases |s|
  {
    if s != [] {
      SplitNoSeparator(s[1..], sep);
      assert [s[0]] + s[1..] == s;
    }
  }

  lemma {:induction false} SplitAtFirst(a: string, sep: char, b: string)
    requires sep !in a
    ensures Split(a + [sep] + b, sep) == [a] + Split(b, sep)
    decreases |a|
  {
    var s := a + [sep] + b;
    if a == [] {
      assert s[0] == sep && s[1..] == b;
    } else {
      assert s[0] == a[0] && s[1..] == a[1..] + [sep] + b;
      SplitAtFirst(a[1..], sep, b);
      assert [a[0]] + a[1..] == a;
    }
  }

  /** `Authorization: <scheme> <token>` yields `<token>` whatever the
      scheme word is: "Bearer", "Basic" or anything else without a space. */
  lemma TokenAfterScheme(scheme: string, token: string)
    requires ' ' !in scheme && ' ' !in token
    ensures BearerToken(scheme + " " + token) == Some(token)
  {
    SplitAtFirst(scheme, ' ', token);
    SplitNoSeparator(token, ' ');
  }

  /** The token is the text between the first and the second space, or
      after the first space when there is no second: `"Bearer tok junk"`
      yields `"tok"` and `"Bearer  tok"` yields the empty token. */
  lemma {:induction false} TokenIsSecondPiece(scheme: string, token: string, rest: string)
    requires ' ' !in scheme && ' ' !in token
    requires rest == "" || rest[0] == ' '
    ensures BearerToken(scheme + " " + token + rest) == Some(token)
  {
    assert scheme + " " + token + rest == scheme + [' '] + (token + rest);
    SplitAtFirst(scheme, ' ', token + rest);
    if rest == "" {
      assert token + rest == token;
      SplitNoSeparator(token, ' ');
    } else {
      assert token + rest == token + [' '] + rest[1..];
      SplitAtFirst(token, ' ', rest[1..]);
    }
  }

  /** The two headers above, worked out. */
  lemma TokenExamples()
    ensures BearerToken("Bearer tok junk") == Some("tok")
    ensures BearerToken("Bearer  tok") == Some("")
  {
    TokenIsSecondPiece("Bearer", "tok", " junk");
    assert "Bearer" + " " + "tok" + " junk" == "Bearer tok junk";
    TokenIsSecondPiece("Bearer", "", " tok");
    assert "Bearer" + " " + "" + " tok" == "Bearer  tok";
  }

  /** A header without a space has no second piece, so no token. */
  lemma NoSpaceNoToken(header: string)
    requires ' ' !in header
    ensures BearerToken(header) == None
  {
    SplitNoSeparator(header, ' ');
  }

  // ---------------------------------------------------------------------
  // authenticateJWT

  /** What `authenticateJWT` decides for a request carrying `header` at
      time `now`: 401 when the header is missing or empty, without any
      verification; otherwise the claims jwt.verify returns for the second
      piece of the header, or 403 for every way verification fails. */
  function Authenticate(header: Option<string>, jwt: Jwt, now: Time): (g: Gate)
    ensures g == Halt(NoToken) <==> !Truthy(header)
    ensures g.Pass? <==> Truthy(header) && Verify(jwt, BearerToken(header.value), now).Some?
    ensures g.Pass? ==> Verify(jwt, BearerToken(header.value), now) == Some(g.user)
    ensures g.Halt? && Truthy(header) ==> g.res == InvalidToken
    ensures g.Halt? ==> g.res.status == 401 || g.res.status == 403
  {
    if !Truthy(header) then Halt(NoToken)
    else
      match Verify(jwt, BearerToken(header.value), now)
      case None => Halt(InvalidToken)
      case Some(c) => Pass(c)
  }

  /** The request object: its Authorization header and the `user` field
      that `authenticateJWT` fills in. */
  class Request {
    const authorization: Option<string>
    var user: Option<Claims>

    constructor (authorization: Option<string>)
      ensures this.authorization == authorization && user == None
    {
      this.authorization := authorization;
      user := None;
    }
  }

  /** `authenticateJWT(req, res, next)`: calls next exactly when the header
      verifies, after setting `req.user` to the decoded claims; otherwise
      answers and leaves `req.user` alone. */
  method AuthenticateJWT(req: Request, jwt: Jwt, now: Time) returns (out: Outcome)
    modifies req
    ensures var g := Authenticate(req.authorization, jwt, now);
      && (out == Next <==> g.Pass?)
      && (g.Pass? ==> req.user == Some(g.user))
      && (g.Halt? ==> out == Respond(g.res) && req.user == old(req.user))
  {
    if !Truthy(req.authorization) {
      return Respond(NoToken);
    }
    var token := BearerToken(req.authorization.value);
    var decoded := Verify(jwt, token, now);
    if decoded.None? {
      return Respond(InvalidToken);
    }
    req.user := decoded;
    out := Next;
  }

  // ---------------------------------------------------------------------
  // isAdmin

  /** `isAdmin(req, res, next)` on `req.user`: next exactly when there is a
      user whose role claim is "admin"; otherwise 403, also when there is
      no user at all (never 401). */
  function IsAdmin(user: Option<Claims>): (out: Outcome)
    ensures out == Next <==> user.Some? && user.value.role == Some("admin")
    ensures out.Respond? ==> out.res == NotAdmin
  {
    if user.Some? && user.value.role == Some("admin") then Next else Respond(NotAdmin)
  }

  /** `router.use(authenticateJWT, isAdmin)`: the two checks in sequence.
      Only a verified token whose claims say role "admin" gets through; a
      missing header gets 401, everything else 403. */
  function AdminGate(header: Option<string>, jwt: Jwt, now: Time): (g: Gate)
    ensures g.Pass? <==> Authenticate(header, jwt, now).Pass? && Authenticate(header, jwt, now).user.role == Some("admin")
    ensures g.Pass? ==> Authenticate(header, jwt, now) == Pass(g.user)
    ensures g.Halt? ==> (g.res.status == 401 <==> !Truthy(header))
    ensures g.Halt? && Truthy(header) ==> g.res == InvalidToken || g.res == NotAdmin
  {
    match Authenticate(header, jwt, now)
    case Halt(r) => Halt(r)
    case Pass(c) =>
      match IsAdmin(Some(c))
      case Next => Pass(c)
      case Respond(r) => Halt(r)
  }

  /** A token the server signed, presented after any scheme word, passes
      authentication with exactly its claims until it expires and gets
      403 afterwards. */
  lemma SignedTokenAuthenticates(jwt: Jwt, scheme: string, c: Claims, now: Time)
    requires Sound(jwt) && ' ' !in scheme
    ensures Authenticate(Some(scheme + " " + jwt.sign(c)), jwt, now)
      == if Expired(c, now) then Halt(InvalidToken) else Pass(c)
  {
    TokenAfterScheme(scheme, jwt.sign(c));
  }

  /** Presenting the bare token without a scheme word gives 403: the token
      is then the first piece, and there is no second. */
  lemma BareTokenRejected(jwt: Jwt, token: string, now: Time)
    requires ' ' !in token && token != ""
    ensures Authenticate(Some(token), jwt, now) == Halt(InvalidToken)
  {
    NoSpaceNoToken(token);
  }

  /** A header that ends right after the scheme word and its space carries
      the empty token, which jsonwebtoken refuses: 403. */
  lemma EmptyTokenRejected(jwt: Jwt, scheme: string, now: Time)
    requires ' ' !in scheme
    ensures BearerToken(scheme + " ") == Some("")
    ensures Authenticate(Some(scheme + " "), jwt, now) == Halt(InvalidToken)
  {
    SplitAtFirst(scheme, ' ', "");
    assert scheme + [' '] + [] == scheme + " ";
  }
}
