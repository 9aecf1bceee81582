/** The token provider the filter and the login flow call. Its signing, expiry
    and claim parsing are outside this model: the provider is a record of
    uninterpreted total functions supplied by the caller. */
module Jwt {
  import opened Domain
  import opened JavaText

  datatype TokenProvider = TokenProvider(
    createToken: (string, Role) -> string,
    validateToken: string -> bool,
    getUsername: string -> string,
    getRoleFromToken: string -> string)

  /** The round trip a correct provider offers: a token it has just issued
      validates, carries back the identity and the role name it was issued
      for, and is not blank. Nothing in the model assumes it; the end-to-end
      scenario takes it as a hypothesis. */
  ghost predicate IssuesVerifiableTokens(tp: TokenProvider)
  {
    forall email: string, role: Role {:trigger tp.createToken(email, role)} ::
      var t := tp.createToken(email, role);
      && tp.validateToken(t)
      && tp.getUsername(t) == email
      && tp.getRoleFromToken(t) == RoleName(role)
      && HasText(t)
  }
}
