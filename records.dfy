/** The rows of the three tables and the projections the handlers answer with. */
module Records {
  import opened Common

  /** A user row. `password` holds the bcrypt hash, never the plaintext;
      the optional columns are None when the request left them out. */
  datatype User = User(
    id: int,
    username: string,
    email: string,
    password: string,
    firstName: Option<string>,
    lastName: Option<string>,
    profilePicture: Option<string>,
    role: string,
    createdAt: Time)

  datatype Post = Post(
    id: int,
    title: string,
    content: string,
    authorId: int,
    published: bool,
    viewable: bool,
    createdAt: Time,
    updatedAt: Time)

  datatype Comment = Comment(
    id: int,
    content: string,
    postId: int,
    authorId: int,
    createdAt: Time)

  /** The public profile: the user row without password and role. */
  datatype Profile = Profile(
    id: int,
    firstName: Option<string>,
    lastName: Option<string>,
    username: string,
    email: string,
    profilePicture: Option<string>,
    createdAt: Time)

  /** The `user` object of a successful login response. */
  datatype LoginView = LoginView(
    id: int,
    username: string,
    email: string,
    firstName: Option<string>,
    lastName: Option<string>,
    profilePicture: Option<string>)

  /** One entry of the administrator's user listing. */
  datatype UserSummary = UserSummary(
    id: int,
    username: string,
    email: string,
    role: string,
    createdAt: Time)

  /** `select` of id, first and last name, username, email, profile
      picture and creation time. */
  function ProfileOf(u: User): (p: Profile)
    ensures p.id == u.id && p.username == u.username && p.email == u.email
    ensures p.firstName == u.firstName && p.lastName == u.lastName
    ensures p.profilePicture == u.profilePicture && p.createdAt == u.createdAt
  {
    Profile(u.id, u.firstName, u.lastName, u.username, u.email, u.profilePicture, u.createdAt)
  }

  /** The user object a login answers with: the profile columns without
      the creation time. */
  function LoginViewOf(u: User): (v: LoginView)
    ensures v.id == u.id && v.username == u.username && v.email == u.email
    ensures v.firstName == u.firstName && v.lastName == u.lastName
    ensures v.profilePicture == u.profilePicture
  {
    LoginView(u.id, u.username, u.email, u.firstName, u.lastName, u.profilePicture)
  }

  /** `select` of id, username, email, role and creation time. */
  function SummaryOf(u: User): (s: UserSummary)
    ensures s.id == u.id && s.username == u.username && s.email == u.email
    ensures s.role == u.role && s.createdAt == u.createdAt
  {
    UserSummary(u.id, u.username, u.email, u.role, u.createdAt)
  }

  /** Each projection shows exactly its columns: two users give the same
      projection when, and only when, they agree on those columns. So the
      password hash never shows, and neither does the role outside the
      administrator's summary. */
  lemma ProjectionColumns(u: User, v: User)
    ensures ProfileOf(u) == ProfileOf(v) <==>
      && u.id == v.id && u.firstName == v.firstName && u.lastName == v.lastName
      && u.username == v.username && u.email == v.email
      && u.profilePicture == v.profilePicture && u.createdAt == v.createdAt
    ensures LoginViewOf(u) == LoginViewOf(v) <==>
      && u.id == v.id && u.username == v.username && u.email == v.email
      && u.firstName == v.firstName && u.lastName == v.lastName
      && u.profilePicture == v.profilePicture
    ensures SummaryOf(u) == SummaryOf(v) <==>
      && u.id == v.id && u.username == v.username && u.email == v.email
      && u.role == v.role && u.createdAt == v.createdAt
  {
  }

  /** None of the three projections depends on the stored password hash. */
  lemma ProjectionsIgnorePassword(u: User, other: string)
    ensures ProfileOf(u.(password := other)) == ProfileOf(u)
    ensures LoginViewOf(u.(password := other)) == LoginViewOf(u)
    ensures SummaryOf(u.(password := other)) == SummaryOf(u)
  {
  }
}
