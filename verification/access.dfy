/** The access decision the board services apply before mutating a post or a
    comment, stated over identity keys (emails) and roles rather than over
    stored entities. */
module Access {
  import opened Domain

  datatype Action = EditPost | DeletePost | DeleteComment

  /** The rule each service method enforces, as written: editing a post and
      deleting a comment need the owner OR an administrator; deleting a post
      needs a caller that is the owner AND an administrator. */
  predicate Allows(action: Action, callerEmail: string, callerRole: Role, ownerEmail: string)
  {
    match action
    case EditPost => callerEmail == ownerEmail || callerRole == ADMIN
    case DeletePost => callerEmail == ownerEmail && callerRole == ADMIN
    case DeleteComment => callerEmail == ownerEmail || callerRole == ADMIN
  }

  /** The rule the service tests expect for every action: owner OR administrator. */
  predicate AllowsIntended(callerEmail: string, callerRole: Role, ownerEmail: string)
  {
    callerEmail == ownerEmail || callerRole == ADMIN
  }

  /** Post deletion is the only action whose rule differs from the intended one,
      and it differs exactly for the owner who is a plain USER and for the
      administrator who is not the owner. */
  lemma DeleteRuleDiffersOnlyThere(action: Action, callerEmail: string, callerRole: Role, ownerEmail: string)
    ensures Allows(action, callerEmail, callerRole, ownerEmail) != AllowsIntended(callerEmail, callerRole, ownerEmail)
            <==> action == DeletePost && (callerEmail == ownerEmail) != (callerRole == ADMIN)
  {
  }
}
