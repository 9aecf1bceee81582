/** The client router's route table and its global navigation guard. Path
    matching and ranking are not modelled: the guard receives the records the
    target location matched. */
module Router {
  import opened Wrappers
  import opened AuthStore

  /** A route record: its path pattern, its name, and `meta.requiresAuth`
      (`None` for a record declared without that flag). */
  datatype RouteRecord = RouteRecord(path: string, name: Option<string>, requiresAuth: Option<bool>)

  const LoginPath: string := "/login"
  const PostsPath: string := "/posts"

  const RootRoute := RouteRecord("/", None, None)
  const LoginRoute := RouteRecord(LoginPath, Some("Login"), Some(false))
  const PostListRoute := RouteRecord(PostsPath, Some("PostList"), Some(true))
  const PostDetailRoute := RouteRecord("/posts/:id", Some("PostDetail"), Some(true))
  const PostCreateRoute := RouteRecord("/posts/new", Some("PostCreate"), Some(true))
  const PostEditRoute := RouteRecord("/posts/:id/edit", Some("PostEdit"), Some(true))
  const NotFoundRoute := RouteRecord("/:pathMatch(.*)*", Some("NotFound"), None)

  /** The route table, in declaration order. */
  const Routes: seq<RouteRecord> :=
    [RootRoute, LoginRoute, PostListRoute, PostDetailRoute, PostCreateRoute, PostEditRoute, NotFoundRoute]

  /** The target of a navigation: its path and the records it matched. */
  datatype Location = Location(path: string, matched: seq<RouteRecord>)

  /** `to.matched.some(record => record.meta.requiresAuth)`: only a flag set to
      `true` counts; an absent flag is falsy. */
  predicate RequiresAuth(matched: seq<RouteRecord>)
    ensures RequiresAuth(matched) <==> exists r :: r in matched && r.requiresAuth == Some(true)
  {
    exists i :: 0 <= i < |matched| && matched[i].requiresAuth == Some(true)
  }

  /** `next()` or `next(path)`. */
  datatype Decision = Proceed | RedirectTo(path: string)

  /** `beforeEach`: an anonymous visitor of a protected location is sent to the
      login page, an authenticated visitor of the login page to the post list,
      and every other navigation goes ahead. */
  function BeforeEach(to: Location, auth: AuthState): (d: Decision)
    ensures d == RedirectTo(LoginPath) <==> RequiresAuth(to.matched) && !IsAuthenticated(auth)
    ensures d == RedirectTo(PostsPath) <==> to.path == LoginPath && IsAuthenticated(auth)
    ensures d == Proceed <==>
      (!RequiresAuth(to.matched) || IsAuthenticated(auth)) && (to.path != LoginPath || !IsAuthenticated(auth))
  {
    if RequiresAuth(to.matched) && !IsAuthenticated(auth) then RedirectTo(LoginPath)
    else if to.path == LoginPath && IsAuthenticated(auth) then RedirectTo(PostsPath)
    else Proceed
  }

  /** The records of the table whose pattern is exactly `path`: what a static
      path such as a redirect target matches. */
  function StaticMatch(routes: seq<RouteRecord>, path: string): (r: seq<RouteRecord>)
    ensures forall x :: x in r <==> x in routes && x.path == path
    ensures (forall x :: x in routes ==> x.path != path) ==> r == []
  {
    if |routes| == 0 then []
    else if routes[0].path == path then [routes[0]] + StaticMatch(routes[1..], path)
    else StaticMatch(routes[1..], path)
  }

  /** The two redirect targets are different paths. */
  lemma RedirectTargetsDiffer()
    ensures LoginPath != PostsPath
  {
    assert LoginPath[1] != PostsPath[1];
  }

  /** The records after the post list all have longer paths than either redirect target. */
  lemma TailRecordsHaveLongerPaths()
    ensures Routes[3..] == [PostDetailRoute, PostCreateRoute, PostEditRoute, NotFoundRoute]
    ensures forall x :: x in Routes[3..] ==> x.path != PostsPath && x.path != LoginPath
  {
    var rest := Routes[3..];
    assert rest == [PostDetailRoute, PostCreateRoute, PostEditRoute, NotFoundRoute];
    assert forall x :: x in rest ==> |x.path| > 6;
  }

  /** Only the login record has the login path, and only the post-list record
      has the post-list path. */
  lemma RedirectTargetsMatchOneRecord()
    ensures StaticMatch(Routes, LoginPath) == [LoginRoute]
    ensures StaticMatch(Routes, PostsPath) == [PostListRoute]
  {
    RedirectTargetsDiffer();
    TailRecordsHaveLongerPaths();
    var r1, r2, r3 := Routes[1..], Routes[2..], Routes[3..];
    assert r2[1..] == r3 && r2[0] == PostListRoute;
    assert r1[1..] == r2 && r1[0] == LoginRoute;
    assert StaticMatch(r3, LoginPath) == [] && StaticMatch(r3, PostsPath) == [];
    assert StaticMatch(r2, LoginPath) == [];
    assert StaticMatch(r2, PostsPath) == [PostListRoute];
    assert StaticMatch(r1, LoginPath) == [LoginRoute];
    assert StaticMatch(r1, PostsPath) == [PostListRoute];
    assert Routes[0].path != LoginPath && Routes[0].path != PostsPath;
  }

  /** No redirect loop: wherever the guard redirects, the same visitor is let
      through at the redirect target. */
  lemma NoRedirectLoop(to: Location, auth: AuthState)
    requires BeforeEach(to, auth).RedirectTo?
    ensures var p := BeforeEach(to, auth).path;
      BeforeEach(Location(p, StaticMatch(Routes, p)), auth) == Proceed
  {
    RedirectTargetsMatchOneRecord();
    assert !RequiresAuth([LoginRoute]);
  }

  /** Only the records declared with `requiresAuth: true` protect a location:
      the login page, the root redirect and the catch-all never do. */
  lemma UnprotectedRecords()
    ensures forall r :: r in Routes ==> (r.requiresAuth == Some(true) <==> r in Routes[2..6])
    ensures !RequiresAuth([LoginRoute]) && !RequiresAuth([RootRoute]) && !RequiresAuth([NotFoundRoute])
  {
  }

  /** An unknown path (matched only by the catch-all) is shown to anyone. */
  lemma NotFoundIsPublic(path: string, auth: AuthState)
    requires path != LoginPath
    ensures BeforeEach(Location(path, [NotFoundRoute]), auth) == Proceed
  {
    assert !RequiresAuth([NotFoundRoute]);
  }

  /** After a successful login with a non-empty token, the post list the
      store navigates to is let through. */
  lemma LoginNavigationAccepted(s: AuthState, data: UserInfo)
    requires data.token != ""
    ensures var t := Login(s, Resolved(data));
      BeforeEach(Location(t.navigateTo.value, StaticMatch(Routes, t.navigateTo.value)), t.state) == Proceed
  {
    var t := Login(s, Resolved(data));
    assert t.navigateTo.value == PostsPath;
    RedirectTargetsMatchOneRecord();
    RedirectTargetsDiffer();
  }

  /** After a logout, the login page the store navigates to is let through, and
      every protected location redirects back to it. */
  lemma LogoutNavigationAccepted(s: AuthState, to: Location)
    ensures var t := Logout(s);
      BeforeEach(Location(t.navigateTo.value, StaticMatch(Routes, t.navigateTo.value)), t.state) == Proceed
    ensures RequiresAuth(to.matched) ==> BeforeEach(to, Logout(s).state) == RedirectTo(LoginPath)
  {
    var t := Logout(s);
    assert t.navigateTo.value == LoginPath;
    RedirectTargetsMatchOneRecord();
    assert !RequiresAuth([LoginRoute]);
  }
}
