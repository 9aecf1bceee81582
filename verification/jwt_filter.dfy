/** `JwtAuthenticationFilter`: reads the bearer token of a request and, when the
    provider accepts it, installs the caller's authentication for the rest of
    the request. It never rejects a request itself. */
module JwtFilter {
  import opened Wrappers
  import opened JavaText
  import opened Jwt

  /** The scheme prefix of the `Authorization` header, including its space. */
  const BearerPrefix: string := "Bearer "

  /** `resolveToken`: the header value after the prefix, when the header is
      present, has text and starts with the exact prefix. */
  function ResolveToken(header: Option<string>): (r: Option<string>)
    ensures r.Some? <==> header.Some? && HasText(header.value) && StartsWith(header.value, BearerPrefix)
    ensures r.Some? ==> header.value == BearerPrefix + r.value
  {
    if header.Some? && HasText(header.value) && StartsWith(header.value, BearerPrefix) then
      var t := header.value[|BearerPrefix|..];
      assert header.value == header.value[..|BearerPrefix|] + t;
      Some(t)
    else None
  }

  /** `resolveToken` inverts the header a client builds with `setBearerAuth`:
      it yields `t` exactly for the header "Bearer " followed by `t`, and
      nothing for any other header, a missing one included. */
  lemma ResolveTokenIff(header: Option<string>, t: string)
    ensures ResolveToken(header) == Some(t) <==> header == Some(BearerPrefix + t)
  {
    if header == Some(BearerPrefix + t) {
      HasTextOfPrefixed(BearerPrefix, t);
      assert header.value[..|BearerPrefix|] == BearerPrefix;
      assert header.value[|BearerPrefix|..] == t;
    }
  }

  /** The scheme match is case-sensitive: a lower-case "bearer" yields no token. */
  lemma LowerCaseSchemeRejected(t: string)
    ensures ResolveToken(Some("bearer " + t)) == None
  {
    assert ("bearer " + t)[0] == 'b' != BearerPrefix[0];
  }

  /** The principal `UserPrincipal(username, null, authorities)`. */
  datatype UserPrincipal = UserPrincipal(username: string, password: Option<string>, authorities: seq<string>)

  /** `UsernamePasswordAuthenticationToken(principal, null, authorities)`. */
  datatype Authentication = Authentication(principal: UserPrincipal, credentials: Option<string>, authorities: seq<string>)

  /** `Authentication.getName()`, which the controllers pass to the services. */
  function Name(a: Authentication): (name: string)
  {
    a.principal.username
  }

  /** What the filter does, in order: install an authentication, continue the chain. */
  datatype Effect = SetAuthentication(auth: Authentication) | ContinueChain

  /** The security context after the filter, and the filter's effects in order. */
  datatype FilterResult = FilterResult(context: Option<Authentication>, effects: seq<Effect>)

  /** Number of times the effects continue the filter chain. */
  function ChainCalls(effects: seq<Effect>): (n: nat)
  {
    if |effects| == 0 then 0
    else (if effects[0] == ContinueChain then 1 else 0) + ChainCalls(effects[1..])
  }

  /** The header carries token `t` after the exact prefix, `t` has text and
      the provider accepts it: the condition under which a request is authenticated. */
  ghost predicate Authenticates(tp: TokenProvider, header: Option<string>, t: string)
  {
    header == Some(BearerPrefix + t) && HasText(t) && tp.validateToken(t)
  }

  /** The authentication installed for an accepted token: the principal named
      by the token, no credentials, and the single authority "ROLE_" + role. */
  function AuthenticationFor(tp: TokenProvider, t: string): (a: Authentication)
    ensures Name(a) == tp.getUsername(t)
    ensures a.credentials.None? && a.principal.password.None?
    ensures a.authorities == a.principal.authorities == ["ROLE_" + tp.getRoleFromToken(t)]
  {
    var authorities := ["ROLE_" + tp.getRoleFromToken(t)];
    Authentication(UserPrincipal(tp.getUsername(t), None, authorities), None, authorities)
  }

  /** `doFilterInternal`: a request is authenticated exactly when its header
      carries an accepted token with text; otherwise the incoming context is
      left alone. Either way the chain is continued exactly once, last. */
  function DoFilterInternal(tp: TokenProvider, header: Option<string>, context: Option<Authentication>): (r: FilterResult)
    ensures ChainCalls(r.effects) == 1 && r.effects[|r.effects| - 1] == ContinueChain
    ensures (exists t :: Authenticates(tp, header, t)) <==> r.effects != [ContinueChain]
    ensures forall t :: Authenticates(tp, header, t) ==>
      && r.context == Some(AuthenticationFor(tp, t))
      && r.effects == [SetAuthentication(AuthenticationFor(tp, t)), ContinueChain]
    ensures (forall t :: !Authenticates(tp, header, t)) ==> r == FilterResult(context, [ContinueChain])
  {
    var jwt := ResolveToken(header);
    if jwt.Some? && HasText(jwt.value) && tp.validateToken(jwt.value) then
      assert Authenticates(tp, header, jwt.value);
      assert forall t :: Authenticates(tp, header, t) ==> t == jwt.value by {
        forall t | Authenticates(tp, header, t) ensures t == jwt.value {
          ResolveTokenIff(header, t);
        }
      }
      var auth := AuthenticationFor(tp, jwt.value);
      assert ChainCalls([SetAuthentication(auth), ContinueChain]) == 1 by {
        assert [SetAuthentication(auth), ContinueChain][1..] == [ContinueChain];
      }
      FilterResult(Some(auth), [SetAuthentication(auth), ContinueChain])
    else
      assert forall t :: !Authenticates(tp, header, t) by {
        forall t ensures !Authenticates(tp, header, t) {
          ResolveTokenIff(header, t);
        }
      }
      FilterResult(context, [ContinueChain])
  }

  /** A header holding only the scheme, or the scheme and blanks, never
      authenticates, whatever the provider accepts. */
  lemma BlankBearerNeverAuthenticates(tp: TokenProvider, blanks: string, context: Option<Authentication>)
    requires forall i :: 0 <= i < |blanks| ==> IsWhitespace(blanks[i])
    ensures DoFilterInternal(tp, Some(BearerPrefix + blanks), context) == FilterResult(context, [ContinueChain])
  {
    var header := Some(BearerPrefix + blanks);
    forall t ensures !Authenticates(tp, header, t) {
      ResolveTokenIff(header, t);
      if header == Some(BearerPrefix + t) {
        assert t == (BearerPrefix + t)[|BearerPrefix|..] == blanks;
        NoTextInBlanks(t);
      }
    }
  }
}
