/** `UserService`: account registration and login. Password hashing and the
    authentication manager are outside this model; the encoder is a record of
    uninterpreted functions supplied by the caller. */
module UserService {
  import opened Wrappers
  import opened Domain
  import opened Jwt

  /** `PasswordEncoder`: `encode` hashes a raw password, `matches(raw, stored)`
      checks a raw password against a stored hash. */
  datatype PasswordEncoder = PasswordEncoder(encode: string -> string, matches: (string, string) -> bool)

  /** The one property of the encoder the model relies on: a password matches
      its own encoding. */
  ghost predicate MatchesOwnEncoding(pe: PasswordEncoder)
  {
    forall raw: string {:trigger pe.encode(raw)} :: pe.matches(raw, pe.encode(raw))
  }

  /** `UserRepository.existsByEmail`. */
  predicate ExistsByEmail(users: seq<User>, email: string)
    ensures ExistsByEmail(users, email) <==> exists u :: u in users && u.email == email
  {
    FindUserByEmail(users, email).Some?
  }

  /** `signup`: refuses an email that is already registered; otherwise stores
      one new user with the next id, the encoded password and the USER role. */
  function Signup(s: Store, pe: PasswordEncoder, req: UserRequest): (r: Result<Store, Error>)
    ensures r.Failure? <==> exists u :: u in s.users && u.email == req.email
    ensures r.Failure? ==> r.error == DuplicateEmail
    ensures r.Success? ==>
      var s' := r.value;
      && s'.posts == s.posts && s'.comments == s.comments
      && s'.nextPostId == s.nextPostId && s'.nextCommentId == s.nextCommentId
      && |s'.users| == |s.users| + 1 && s'.users[..|s.users|] == s.users
      && var u := s'.users[|s.users|];
         && u.email == req.email && u.password == pe.encode(req.password) && u.role == USER
         && u.id == s.nextUserId && s'.nextUserId > u.id
  {
    if ExistsByEmail(s.users, req.email) then Failure(DuplicateEmail)
    else
      var u := User(s.nextUserId, req.email, pe.encode(req.password), USER);
      var s' := s.(users := s.users + [u], nextUserId := s.nextUserId + 1);
      assert s'.users[..|s.users|] == s.users;
      Success(s')
  }

  /** The authentication manager login delegates to: look the user up by
      email, then check the raw password against the stored hash. Both
      failures surface as the same bad-credentials error. */
  function Authenticate(s: Store, pe: PasswordEncoder, email: string, password: string): (r: Result<User, Error>)
    ensures r.Failure? ==> r.error == BadCredentials
    ensures r.Success? ==> r.value in s.users && r.value.email == email && pe.matches(password, r.value.password)
    ensures (forall u :: u in s.users ==> u.email != email) ==> r.Failure?
  {
    match FindUserByEmail(s.users, email)
    case None => Failure(BadCredentials)
    case Some(u) => if pe.matches(password, u.password) then Success(u) else Failure(BadCredentials)
  }

  /** `login`: authenticate, then answer with the request's email and a token
      issued for the authenticated user and role. */
  function Login(s: Store, pe: PasswordEncoder, tp: TokenProvider, req: UserRequest): (r: Result<UserResponse, Error>)
    ensures r.Failure? ==> r.error == BadCredentials
    ensures r.Success? ==>
      && r.value.email == req.email
      && exists u :: u in s.users && u.email == req.email && pe.matches(req.password, u.password)
                     && r.value.token == tp.createToken(u.email, u.role)
    ensures (forall u :: u in s.users ==> u.email != req.email) ==> r.Failure?
  {
    match Authenticate(s, pe, req.email, req.password)
    case Failure(e) => Failure(e)
    case Success(u) => Success(UserResponse(req.email, tp.createToken(u.email, u.role)))
  }

  /** Signup keeps every store invariant; in particular no two users ever share an email. */
  lemma SignupPreservesValid(s: Store, pe: PasswordEncoder, req: UserRequest)
    requires Valid(s)
    requires Signup(s, pe, req).Success?
    ensures Valid(Signup(s, pe, req).value)
  {
    var s' := Signup(s, pe, req).value;
    var n := |s.users|;
    assert forall i :: 0 <= i < n ==> s'.users[i] == s.users[i];
    assert forall i :: 0 <= i < n ==> s.users[i] in s.users;
    forall i, j | 0 <= i < |s'.users| && 0 <= j < |s'.users| && i != j
      ensures s'.users[i].email != s'.users[j].email && s'.users[i].id != s'.users[j].id
    {
    }
    forall x | x in s.users ensures x in s'.users {
      var k :| 0 <= k < n && s.users[k] == x;
      assert s'.users[k] == x;
    }
  }

  /** A successful signup adds exactly one user: the only one with the new
      email, which `findByEmail` then returns; every earlier user stays. */
  lemma SignupAddsExactlyOne(s: Store, pe: PasswordEncoder, req: UserRequest)
    requires Valid(s)
    requires Signup(s, pe, req).Success?
    ensures var s' := Signup(s, pe, req).value;
      var added := User(s.nextUserId, req.email, pe.encode(req.password), USER);
      && (forall u :: u in s'.users <==> u in s.users || u == added)
      && (forall u :: u in s'.users && u.email == req.email ==> u == added)
      && FindUserByEmail(s'.users, req.email) == Some(added)
  {
    var s' := Signup(s, pe, req).value;
    var added := User(s.nextUserId, req.email, pe.encode(req.password), USER);
    assert s'.users == s.users + [added];
    SignupPreservesValid(s, pe, req);
    FindUserByEmailUnique(s'.users, added);
  }

  /** Signup never creates an administrator: every ADMIN after it was there before. */
  lemma SignupNeverCreatesAdmin(s: Store, pe: PasswordEncoder, req: UserRequest)
    requires Signup(s, pe, req).Success?
    ensures forall u :: u in Signup(s, pe, req).value.users && u.role == ADMIN ==> u in s.users
  {
    var s' := Signup(s, pe, req).value;
    assert s'.users == s.users + [s'.users[|s.users|]];
  }

  /** A second signup with a registered email fails, whatever the password. */
  lemma SignupTwiceFails(s: Store, pe: PasswordEncoder, req: UserRequest, password: string)
    requires Signup(s, pe, req).Success?
    ensures Signup(Signup(s, pe, req).value, pe, UserRequest(req.email, password)) == Failure(DuplicateEmail)
  {
    var s' := Signup(s, pe, req).value;
    assert s'.users[|s.users|] in s'.users;
  }

  /** With unique emails, login succeeds exactly when some stored user has the
      email and the password matches that user's stored hash. */
  lemma LoginSucceedsIff(s: Store, pe: PasswordEncoder, tp: TokenProvider, req: UserRequest)
    requires UniqueEmails(s.users)
    ensures Login(s, pe, tp, req).Success? <==>
      exists u :: u in s.users && u.email == req.email && pe.matches(req.password, u.password)
  {
    if u :| u in s.users && u.email == req.email && pe.matches(req.password, u.password) {
      FindUserByEmailUnique(s.users, u);
    }
  }

  /** Registering and then logging in with the same credentials succeeds and
      answers with the email and a token issued for that email and role USER;
      the stored hash matches the raw password. */
  lemma SignupThenLogin(s: Store, pe: PasswordEncoder, tp: TokenProvider, req: UserRequest)
    requires Valid(s)
    requires MatchesOwnEncoding(pe)
    requires Signup(s, pe, req).Success?
    ensures var s' := Signup(s, pe, req).value;
      && pe.matches(req.password, FindUserByEmail(s'.users, req.email).value.password)
      && Login(s', pe, tp, req) == Success(UserResponse(req.email, tp.createToken(req.email, USER)))
  {
    SignupAddsExactlyOne(s, pe, req);
    assert pe.matches(req.password, pe.encode(req.password));
  }
}
