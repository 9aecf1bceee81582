/** Entities of the board backend and the in-memory store the services work on.
    The store replaces the JPA repositories: each table is a sequence in
    insertion (id) order, and every table has a counter that hands out fresh ids. */
module Domain {
  import opened Wrappers
  import opened Seqs

  /** `UserRole`: fixed at account creation. */
  datatype Role = USER | ADMIN

  /** The enum constant's `name()`, the text the token carries for the role. */
  function RoleName(r: Role): (name: string)
  {
    match r
    case USER => "USER"
    case ADMIN => "ADMIN"
  }

  /** An account. `password` holds the encoder's output, never the raw secret. */
  datatype User = User(id: nat, email: string, password: string, role: Role)

  /** A post; `author` is the user entity it references. Users are never
      modified in this model, so the copy always agrees with the users table. */
  datatype Post = Post(id: nat, title: string, content: string, author: User)

  /** A comment on the post with id `postId`. */
  datatype Comment = Comment(id: nat, content: string, author: User, postId: nat)

  datatype Store = Store(
    users: seq<User>,
    posts: seq<Post>,
    comments: seq<Comment>,
    nextUserId: nat,
    nextPostId: nat,
    nextCommentId: nat)

  /** A freshly created database: empty tables, identity columns starting at 1. */
  const EmptyStore := Store([], [], [], 1, 1, 1)

  /** Request bodies. */
  datatype PostRequest = PostRequest(title: string, content: string)
  datatype CommentRequest = CommentRequest(content: string)
  datatype UserRequest = UserRequest(email: string, password: string)

  /** Response shapes (timestamps are not modelled). */
  datatype CommentResponse = CommentResponse(id: nat, content: string, authorEmail: string)
  datatype PostResponse = PostResponse(
    id: nat, title: string, content: string, authorEmail: string,
    comments: seq<CommentResponse>)
  datatype UserResponse = UserResponse(email: string, token: string)

  /** The exceptions the services raise. `BadCredentials` is raised by the
      authentication manager that login delegates to. */
  datatype Error =
    | UserNotFound
    | PostNotFound
    | CommentNotFound
    | NoEditPermission
    | NoDeletePermission
    | NoCommentDeletePermission
    | DuplicateEmail
    | BadCredentials

  /** The message each service exception carries; the tests match on it.
      The authentication failure carries none of these services' messages:
      its text comes from the authentication manager. */
  function Message(e: Error): (m: Option<string>)
    ensures m.None? <==> e == BadCredentials
  {
    match e
    case UserNotFound => Some("사용자를 찾을 수 없습니다.")
    case PostNotFound => Some("게시글을 찾을 수 없습니다.")
    case CommentNotFound => Some("댓글을 찾을 수 없습니다.")
    case NoEditPermission => Some("게시글을 수정할 권한이 없습니다.")
    case NoDeletePermission => Some("게시글을 삭제할 권한이 없습니다.")
    case NoCommentDeletePermission => Some("댓글을 삭제할 권한이 없습니다.")
    case DuplicateEmail => Some("이미 존재하는 이메일입니다.")
    case BadCredentials => None
  }

  /** Entity equality between users (`User.equals`), taken to be equality of ids. */
  predicate SameUser(a: User, b: User)
    ensures a == b ==> SameUser(a, b)
  {
    a.id == b.id
  }

  /** `UserRepository.findByEmail`. */
  function FindUserByEmail(users: seq<User>, email: string): (r: Option<User>)
    ensures r.Some? ==> r.value in users && r.value.email == email
    ensures r.None? <==> forall u :: u in users ==> u.email != email
  {
    var i := FirstIndex(users, (u: User) => u.email == email);
    if i < |users| then Some(users[i]) else None
  }

  /** Row of the post with id `id` in the posts table, `|posts|` if absent. */
  function PostIndex(posts: seq<Post>, id: nat): (i: nat)
    ensures i <= |posts|
    ensures i < |posts| ==> posts[i].id == id
    ensures forall j :: 0 <= j < i ==> posts[j].id != id
  {
    FirstIndex(posts, (p: Post) => p.id == id)
  }

  /** Row of the comment with id `id` in the comments table, `|comments|` if absent. */
  function CommentIndex(comments: seq<Comment>, id: nat): (i: nat)
    ensures i <= |comments|
    ensures i < |comments| ==> comments[i].id == id
    ensures forall j :: 0 <= j < i ==> comments[j].id != id
  {
    FirstIndex(comments, (c: Comment) => c.id == id)
  }

  /** `PostRepository.findById`. */
  function FindPost(s: Store, id: nat): (r: Option<Post>)
    ensures r.Some? ==> r.value in s.posts && r.value.id == id
    ensures r.None? <==> forall p :: p in s.posts ==> p.id != id
  {
    var i := PostIndex(s.posts, id);
    if i < |s.posts| then Some(s.posts[i]) else None
  }

  /** `CommentRepository.findById`. */
  function FindComment(s: Store, id: nat): (r: Option<Comment>)
    ensures r.Some? ==> r.value in s.comments && r.value.id == id
    ensures r.None? <==> forall c :: c in s.comments ==> c.id != id
  {
    var i := CommentIndex(s.comments, id);
    if i < |s.comments| then Some(s.comments[i]) else None
  }

  /** The unique-email constraint of the users table. */
  predicate UniqueEmails(users: seq<User>)
  {
    forall i, j :: 0 <= i < |users| && 0 <= j < |users| && i != j ==> users[i].email != users[j].email
  }

  predicate UniqueUserIds(users: seq<User>)
  {
    forall i, j :: 0 <= i < |users| && 0 <= j < |users| && i != j ==> users[i].id != users[j].id
  }

  predicate UniquePostIds(posts: seq<Post>)
  {
    forall i, j :: 0 <= i < |posts| && 0 <= j < |posts| && i != j ==> posts[i].id != posts[j].id
  }

  predicate UniqueCommentIds(comments: seq<Comment>)
  {
    forall i, j :: 0 <= i < |comments| && 0 <= j < |comments| && i != j ==> comments[i].id != comments[j].id
  }

  /** The invariant assumed of every store a request sees: primary keys and
      emails unique, ids below their counters, authors present in the users
      table, and every comment pointing at an id already handed out to a post.
      Email uniqueness comes from signup's check before insert; the operations
      below are proved to keep the whole invariant when run one at a time. */
  predicate Valid(s: Store)
  {
    && UniqueEmails(s.users)
    && UniqueUserIds(s.users)
    && (forall u :: u in s.users ==> u.id < s.nextUserId)
    && UniquePostIds(s.posts)
    && (forall p :: p in s.posts ==> p.id < s.nextPostId && p.author in s.users)
    && UniqueCommentIds(s.comments)
    && (forall c :: c in s.comments ==> c.id < s.nextCommentId && c.author in s.users && c.postId < s.nextPostId)
  }

  /** The empty database satisfies the invariant, so every operation that
      requires it has a starting point. */
  lemma EmptyStoreValid()
    ensures Valid(EmptyStore)
    ensures EmptyStore.users == [] && EmptyStore.posts == [] && EmptyStore.comments == []
  {
  }

  /** Distinct service errors carry distinct messages, so a caller matching on
      the message (as the service tests do) identifies the error. */
  lemma MessagesIdentifyErrors(e1: Error, e2: Error)
    requires Message(e1).Some?
    ensures Message(e1) == Message(e2) <==> e1 == e2
  {
  }

  /** With unique emails, a stored user is exactly what `findByEmail` returns for its email. */
  lemma FindUserByEmailUnique(users: seq<User>, u: User)
    requires UniqueEmails(users)
    requires u in users
    ensures FindUserByEmail(users, u.email) == Some(u)
  {
    var r := FindUserByEmail(users, u.email);
    var i :| 0 <= i < |users| && users[i] == u;
    var k :| 0 <= k < |users| && users[k] == r.value;
    assert i == k;
  }

  /** With unique emails and ids, two stored users are the same entity exactly
      when their emails agree. */
  lemma SameUserIffSameEmail(users: seq<User>, a: User, b: User)
    requires UniqueEmails(users) && UniqueUserIds(users)
    requires a in users && b in users
    ensures SameUser(a, b) <==> a.email == b.email
  {
    var i :| 0 <= i < |users| && users[i] == a;
    var j :| 0 <= j < |users| && users[j] == b;
    if SameUser(a, b) {
      assert i == j;
    }
    if a.email == b.email {
      assert i == j;
    }
  }

  /** With unique ids, a stored post is exactly what `findById` returns for its id. */
  lemma FindPostUnique(s: Store, p: Post)
    requires UniquePostIds(s.posts)
    requires p in s.posts
    ensures FindPost(s, p.id) == Some(p)
  {
    var r := FindPost(s, p.id);
    var i :| 0 <= i < |s.posts| && s.posts[i] == p;
    var k :| 0 <= k < |s.posts| && s.posts[k] == r.value;
    assert i == k;
  }
}
