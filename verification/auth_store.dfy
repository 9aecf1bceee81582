/** The client's authentication store: the logged-in user, the in-memory token
    and the copy of the token kept in browser storage. The HTTP call is not
    modelled; its settled outcome is an input of the login transition. */
module AuthStore {
  import opened Wrappers

  /** The login response body: the email and the issued token. */
  datatype UserInfo = UserInfo(email: string, token: string)

  /** `user`, `token`, and the browser-storage entry under the key "token". */
  datatype AuthState = AuthState(user: Option<UserInfo>, token: Option<string>, persisted: Option<string>)

  /** The in-memory token is the persisted one. */
  predicate Consistent(s: AuthState)
  {
    s.token == s.persisted
  }

  /** `isAuthenticated`: the token is neither null nor the empty string. */
  predicate IsAuthenticated(s: AuthState)
    ensures IsAuthenticated(s) <==> exists t :: s.token == Some(t) && |t| > 0
  {
    s.token.Some? && s.token.value != ""
  }

  /** Store creation: no user, and the token read back from browser storage. */
  function Init(persisted: Option<string>): (s: AuthState)
    ensures s.user.None? && s.persisted == persisted
    ensures Consistent(s)
    ensures IsAuthenticated(s) <==> persisted.Some? && persisted.value != ""
  {
    AuthState(None, persisted, persisted)
  }

  /** How the awaited login request settled. */
  datatype LoginReply = Resolved(data: UserInfo) | Rejected(reason: string)

  /** The state after a store action, the navigation it requests, and the
      error it rethrows. */
  datatype Transition = Transition(state: AuthState, navigateTo: Option<string>, thrown: Option<string>)

  /** `login`: on a resolved request, record the user and the token in memory
      and in storage and go to the post list; on a rejected one, rethrow and
      touch nothing, since every assignment comes after the awaited call. */
  function Login(s: AuthState, reply: LoginReply): (t: Transition)
    ensures reply.Rejected? ==> t == Transition(s, None, Some(reply.reason))
    ensures reply.Resolved? ==>
      && t.state.user == Some(reply.data)
      && t.state.token == Some(reply.data.token) && t.state.persisted == Some(reply.data.token)
      && t.navigateTo == Some("/posts") && t.thrown.None?
    ensures Consistent(s) ==> Consistent(t.state)
    ensures reply.Resolved? ==> (IsAuthenticated(t.state) <==> reply.data.token != "")
  {
    match reply
    case Rejected(reason) => Transition(s, None, Some(reason))
    case Resolved(data) =>
      Transition(AuthState(Some(data), Some(data.token), Some(data.token)), Some("/posts"), None)
  }

  /** `logout`: clear the user, the token and the stored token, then go to the login page. */
  function Logout(s: AuthState): (t: Transition)
    ensures t.state.user.None? && t.state.token.None? && t.state.persisted.None?
    ensures !IsAuthenticated(t.state) && Consistent(t.state)
    ensures t.navigateTo == Some("/login") && t.thrown.None?
  {
    Transition(AuthState(None, None, None), Some("/login"), None)
  }

  /** A store action as the views trigger it. */
  datatype Action = DoLogin(reply: LoginReply) | DoLogout

  function Step(s: AuthState, a: Action): (t: AuthState)
  {
    match a
    case DoLogin(reply) => Login(s, reply).state
    case DoLogout => Logout(s).state
  }

  /** The state after a run of actions, in order. */
  function Run(s: AuthState, actions: seq<Action>): (t: AuthState)
    decreases |actions|
  {
    if |actions| == 0 then s else Run(Step(s, actions[0]), actions[1..])
  }

  /** Along any run, the in-memory token stays equal to the stored one. */
  lemma {:induction false} RunKeepsConsistent(s: AuthState, actions: seq<Action>)
    requires Consistent(s)
    ensures Consistent(Run(s, actions))
    decreases |actions|
  {
    if |actions| > 0 {
      RunKeepsConsistent(Step(s, actions[0]), actions[1..]);
    }
  }

  /** A resolved login whose token is not empty. */
  predicate GrantsToken(a: Action)
  {
    a.DoLogin? && a.reply.Resolved? && a.reply.data.token != ""
  }

  /** The client is authenticated after a run only if it already was before
      it and never logged out or logged in with an empty token, or some login
      in the run returned a non-empty token. */
  lemma {:induction false} AuthenticatedOnlyThroughLogin(s: AuthState, actions: seq<Action>)
    requires IsAuthenticated(Run(s, actions))
    ensures || (exists i :: 0 <= i < |actions| && GrantsToken(actions[i]))
            || (IsAuthenticated(s) && forall i :: 0 <= i < |actions| ==> actions[i].DoLogin? && actions[i].reply.Rejected?)
    decreases |actions|
  {
    if |actions| > 0 {
      var s1 := Step(s, actions[0]);
      AuthenticatedOnlyThroughLogin(s1, actions[1..]);
      if exists i :: 0 <= i < |actions[1..]| && GrantsToken(actions[1..][i]) {
        var i :| 0 <= i < |actions[1..]| && GrantsToken(actions[1..][i]);
        assert GrantsToken(actions[i + 1]);
      } else if !GrantsToken(actions[0]) {
        assert IsAuthenticated(s1);
        assert actions[0].DoLogin? && actions[0].reply.Rejected?;
        forall i | 0 <= i < |actions| ensures actions[i].DoLogin? && actions[i].reply.Rejected? {
          if i > 0 {
            assert actions[i] == actions[1..][i - 1];
          }
        }
      }
    }
  }
}
