/** The end-to-end flow of the board: register, log in, send the token as a
    bearer header, create a post, edit it, comment on it and read it back.
    The token provider and the password encoder are the abstract ones of the
    model, constrained only by their round-trip properties. */
module Scenario {
  import opened Wrappers
  import opened JavaText
  import opened Domain
  import opened Jwt
  import opened JwtFilter
  import opened UserService
  import opened PostService
  import opened PostProperties
  import AuthStore

  /** A fresh email can register, and logging in with the same credentials
      returns a token issued for that email and the USER role. */
  lemma RegisterAndLogin(s0: Store, pe: PasswordEncoder, tp: TokenProvider, email: string, password: string)
    requires Valid(s0) && MatchesOwnEncoding(pe)
    requires forall u :: u in s0.users ==> u.email != email
    ensures Signup(s0, pe, UserRequest(email, password)).Success?
    ensures var s1 := Signup(s0, pe, UserRequest(email, password)).value;
      && Valid(s1)
      && (exists u :: u in s1.users && u.email == email)
      && Login(s1, pe, tp, UserRequest(email, password))
           == Success(UserResponse(email, tp.createToken(email, USER)))
  {
    var req := UserRequest(email, password);
    SignupPreservesValid(s0, pe, req);
    SignupAddsExactlyOne(s0, pe, req);
    SignupThenLogin(s0, pe, tp, req);
  }

  /** A token the provider issued for `(email, role)`, sent as a bearer header,
      authenticates the request as `email` with the single authority
      "ROLE_" + the role's name. */
  lemma IssuedTokenAuthenticates(tp: TokenProvider, email: string, role: Role, context: Option<Authentication>)
    requires IssuesVerifiableTokens(tp)
    ensures var r := DoFilterInternal(tp, Some(BearerPrefix + tp.createToken(email, role)), context);
      && r.context.Some?
      && Name(r.context.value) == email
      && r.context.value.authorities == ["ROLE_" + RoleName(role)]
      && r.context.value.credentials.None?
  {
    var token := tp.createToken(email, role);
    assert Authenticates(tp, Some(BearerPrefix + token), token);
  }

  /** The client stores a token the provider issued and counts as logged in. */
  lemma IssuedTokenLogsClientIn(tp: TokenProvider, email: string, role: Role, s: AuthStore.AuthState)
    requires IssuesVerifiableTokens(tp)
    ensures AuthStore.IsAuthenticated(
      AuthStore.Login(s, AuthStore.Resolved(AuthStore.UserInfo(email, tp.createToken(email, role)))).state)
  {
    var token := tp.createToken(email, role);
    assert HasText(token);
  }

  /** A registered user creates a post and edits it; reading it back shows the edit. */
  lemma CreateThenEdit(s1: Store, email: string, post: PostRequest, edit: PostRequest)
    requires Valid(s1)
    requires exists u :: u in s1.users && u.email == email
    ensures CreatePost(s1, email, post).Success?
    ensures var (s2, created) := CreatePost(s1, email, post).value;
      && created.authorEmail == email
      && UpdatePost(s2, email, created.id, edit).Success?
      && var s3 := UpdatePost(s2, email, created.id, edit).value.0;
         && GetPost(s3, created.id).Success?
         && GetPost(s3, created.id).value.title == edit.title
         && GetPost(s3, created.id).value.content == edit.content
  {
    var (s2, created) := CreatePost(s1, email, post).value;
    CreatePostPreservesValid(s1, email, post);
    var p := s2.posts[|s1.posts|];
    assert p in s2.posts && p.id == created.id && p.author.email == email;
    FindPostUnique(s2, p);
    UpdatePostDecision(s2, email, created.id, edit);
    UpdateThenGet(s2, email, created.id, edit);
  }

  /** Commenting leaves the post's own fields as they were and adds the comment
      to its detail. */
  lemma CommentKeepsPost(s: Store, email: string, postId: nat, comment: CommentRequest)
    requires CreateComment(s, email, postId, comment).Success?
    ensures var (s', commented) := CreateComment(s, email, postId, comment).value;
      && GetPost(s, postId).Success? && GetPost(s', postId).Success?
      && GetPost(s', postId).value.title == GetPost(s, postId).value.title
      && GetPost(s', postId).value.content == GetPost(s, postId).value.content
      && commented in GetPost(s', postId).value.comments
  {
    CommentAppearsInDetail(s, email, postId, comment);
  }

  /** A registered user creates a post, edits it and comments on it; reading
      the post back shows the edit and the comment. */
  lemma PostEditCommentFlow(s1: Store, email: string, post: PostRequest, edit: PostRequest, comment: CommentRequest)
    requires Valid(s1)
    requires exists u :: u in s1.users && u.email == email
    ensures CreatePost(s1, email, post).Success?
    ensures var (s2, created) := CreatePost(s1, email, post).value;
      && created.authorEmail == email
      && UpdatePost(s2, email, created.id, edit).Success?
      && var s3 := UpdatePost(s2, email, created.id, edit).value.0;
         && CreateComment(s3, email, created.id, comment).Success?
         && var (s4, commented) := CreateComment(s3, email, created.id, comment).value;
            && GetPost(s4, created.id).Success?
            && GetPost(s4, created.id).value.title == edit.title
            && GetPost(s4, created.id).value.content == edit.content
            && commented in GetPost(s4, created.id).value.comments
            && commented.content == comment.content
  {
    CreateThenEdit(s1, email, post, edit);
    var (s2, created) := CreatePost(s1, email, post).value;
    var s3 := UpdatePost(s2, email, created.id, edit).value.0;
    assert FindPost(s3, created.id).Some?;
    assert CreateComment(s3, email, created.id, comment).Success?;
    CommentKeepsPost(s3, email, created.id, comment);
  }

  /** The whole integration flow: the name the filter authenticates from the
      login token is the registered email, so every later step of the flow
      runs as the post's owner and succeeds. */
  lemma IntegrationFlow(
    s0: Store, pe: PasswordEncoder, tp: TokenProvider,
    email: string, password: string, post: PostRequest, edit: PostRequest, comment: CommentRequest)
    requires Valid(s0)
    requires MatchesOwnEncoding(pe) && IssuesVerifiableTokens(tp)
    requires forall u :: u in s0.users ==> u.email != email
    ensures Signup(s0, pe, UserRequest(email, password)).Success?
    ensures var s1 := Signup(s0, pe, UserRequest(email, password)).value;
      var login := Login(s1, pe, tp, UserRequest(email, password));
      && login.Success? && login.value.email == email
      && AuthStore.IsAuthenticated(
           AuthStore.Login(AuthStore.Init(None), AuthStore.Resolved(AuthStore.UserInfo(email, login.value.token))).state)
      && var ctx := DoFilterInternal(tp, Some(BearerPrefix + login.value.token), None).context;
         && ctx.Some? && Name(ctx.value) == email && ctx.value.authorities == ["ROLE_USER"]
         && CreatePost(s1, Name(ctx.value), post).Success?
  {
    var req := UserRequest(email, password);
    RegisterAndLogin(s0, pe, tp, email, password);
    var s1 := Signup(s0, pe, req).value;
    var token := tp.createToken(email, USER);
    assert Login(s1, pe, tp, req).value.token == token;
    IssuedTokenAuthenticates(tp, email, USER, None);
    IssuedTokenLogsClientIn(tp, email, USER, AuthStore.Init(None));
    assert "ROLE_" + RoleName(USER) == "ROLE_USER";
    var ctx := DoFilterInternal(tp, Some(BearerPrefix + token), None).context;
    assert ctx.Some? && Name(ctx.value) == email;
    assert ctx.value.authorities == ["ROLE_USER"];
    assert exists u :: u in s1.users && u.email == email;
    assert CreatePost(s1, Name(ctx.value), post).Success?;
  }
}
