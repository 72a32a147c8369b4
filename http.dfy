/** Responses: a status code and one JSON body (or none, for 204). */
module Http {
  import opened Common
  import opened Records

  datatype Body =
    | Error(error: string)
    | Message(message: string)
    | NoContent
    | CommentJson(comment: Comment)
    | CommentList(comments: seq<Comment>)
    | PostJson(post: Post)
    | PostList(posts: seq<Post>)
    | ProfileJson(profile: Profile)
    | NullableProfile(maybeProfile: Option<Profile>)
    | UserJson(message: string, user: User)
    | LoggedIn(token: string, loginUser: LoginView)
    | UserSummaries(users: seq<UserSummary>)

  datatype Response = Response(status: int, body: Body)

  /** `res.status(status).json({ error: message })` */
  function Fail(status: int, message: string): Response
  {
    Response(status, Error(message))
  }

  /** `res.json(...)` without an explicit status. */
  function Ok(body: Body): Response
  {
    Response(200, body)
  }
}
