/** The relational store as an in-memory object: three tables keyed by id
    and the counters that hand out fresh ids. Each handler reads it or
    updates it in place. */
module Database {
  import opened Common
  import opened Records

  /** Every row is stored under its own id. */
  predicate UserIds(users: map<int, User>)
  {
    forall k :: k in users ==> users[k].id == k
  }

  predicate PostIds(posts: map<int, Post>)
  {
    forall k :: k in posts ==> posts[k].id == k
  }

  predicate CommentIds(comments: map<int, Comment>)
  {
    forall k :: k in comments ==> comments[k].id == k
  }

  /** Every id in use was handed out by the counter `next`. */
  predicate Below<T>(table: map<int, T>, next: int)
  {
    forall k :: k in table ==> k < next
  }

  /** The two user columns that login looks up with `findUnique`. */
  datatype UniqueColumn = Email | Username

  function ColumnOf(u: User, col: UniqueColumn): string
  {
    match col
    case Email => u.email
    case Username => u.username
  }

  predicate Unique(users: map<int, User>, col: UniqueColumn)
  {
    forall a, b :: a in users && b in users && ColumnOf(users[a], col) == ColumnOf(users[b], col) ==> a == b
  }

  predicate Taken(users: map<int, User>, col: UniqueColumn, value: string)
  {
    exists k :: k in users && ColumnOf(users[k], col) == value
  }

  /** `findUnique({ where: { <col>: value } })` */
  function FindUnique(users: map<int, User>, col: UniqueColumn, value: string): (r: Option<User>)
    requires Unique(users, col)
    ensures r.None? <==> !Taken(users, col, value)
    ensures forall k :: k in users && ColumnOf(users[k], col) == value ==> r == Some(users[k])
  {
    if Taken(users, col, value) then
      var k :| k in users && ColumnOf(users[k], col) == value;
      Some(users[k])
    else None
  }

  class Store {
    var users: map<int, User>
    var posts: map<int, Post>
    var comments: map<int, Comment>
    var nextUserId: int
    var nextPostId: int
    var nextCommentId: int

    ghost predicate Valid()
      reads this
    {
      && UserIds(users) && Below(users, nextUserId)
      && PostIds(posts) && Below(posts, nextPostId)
      && CommentIds(comments) && Below(comments, nextCommentId)
      && Unique(users, Email)
      && Unique(users, Username)
    }

    /** An empty database whose ids start at 1. */
    constructor ()
      ensures Valid()
      ensures users == map[] && posts == map[] && comments == map[]
      ensures nextUserId == 1 && nextPostId == 1 && nextCommentId == 1
    {
      users, posts, comments := map[], map[], map[];
      nextUserId, nextPostId, nextCommentId := 1, 1, 1;
    }
  }
}
