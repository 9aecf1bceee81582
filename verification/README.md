# Cursorboard: access control and authentication, modelled in Dafny

Cursorboard is a message board: a Spring backend where users sign up, log in
with a JWT bearer token, write posts and comment on them, and a Vue client
that keeps the token and guards its routes. This project models the parts of
it that make decisions:

- **`PostService`** (`post_service.dfy`, properties in `post_properties.dfy`):
  creating, editing, deleting, listing and reading posts, creating and
  deleting comments. Each operation is a pure transition
  `Store × request → Result<(Store, response), Error>` over an in-memory store
  (`domain.dfy`). The store has sequences of users, posts and comments in
  insertion order, plus counters that hand out fresh ids. The permission rules are
  modelled exactly as written, including the owner-AND-admin rule for post
  deletion (see Findings). `access.dfy` restates each rule over identity keys
  (emails) and roles. The lemmas prove that the entity-based checks of the
  service agree with it on every valid store.
- **`UserService`** (`user_service.dfy`): signup with its duplicate-email
  check and the fixed USER role, and login through an authentication manager.
  The password encoder and the token provider are records of uninterpreted
  functions that the caller supplies.
- **`JwtAuthenticationFilter`** (`jwt_filter.dfy`, provider interface in
  `jwt.dfy`, Java string predicates in `java_text.dfy`): bearer-header parsing
  and the decision to install an authentication. The filter's effects are
  returned as an ordered list.
- **Client store and router** (`auth_store.dfy`, `router.dfy`): the token
  state machine (init, login, logout) and the `beforeEach` guard over the
  route table.
- **Scenario** (`scenario.dfy`): the integration flow. It chains signup,
  login, the filter, create, edit, comment and read-back.

Modelling choices:
- `User.equals` is not part of this model. Ownership (`post.getUser().equals(user)`) is modelled as equality of user ids. `Domain.SameUserIffSameEmail` shows that on a valid store this is the same as equality of the unique emails.
- A `Failure` result stands for the thrown `IllegalArgumentException`. The transaction then rolls back, so the caller keeps its old store.
- `Domain.Valid` is the invariant assumed of every store that a request sees.
  `Domain.EmptyStoreValid` shows that the empty database satisfies it. It says:
  - ids and emails are unique;
  - ids are below their counters;
  - every referenced author is stored;
  - every comment points to a post id that has already been handed out.
- Email uniqueness is kept only by signup's check before the insert (UserService.java:30-39). Every mutating operation, including `PostService.DeletePostIntended`, is proved to preserve `Domain.Valid` when requests run one at a time.
- Login goes through `authenticationManager.authenticate`. `UserService.Authenticate` models that step as the standard DAO provider does it: look the user up by email, then check `matches(raw, stored)`. Both failures become one bad-credentials error.

## Model

| member | source | states |
|---|---|---|
| Domain.FindUserByEmail | backend/src/main/java/com/cursorboard/post/application/PostService.java:32-33 | the user found has the requested email; nothing is found exactly when no stored user has it |
| Domain.FindPost | backend/src/main/java/com/cursorboard/post/application/PostService.java:43-44 | the post found is stored and has the requested id; nothing is found exactly when no stored post has it |
| Domain.FindComment | backend/src/main/java/com/cursorboard/post/application/PostService.java:100-101 | the comment found is stored and has the requested id; nothing is found exactly when no stored comment has it |
| Domain.SameUser | backend/src/main/java/com/cursorboard/post/application/PostService.java:49 | `User.equals`, read as equality of ids; a user entity equals itself |
| Domain.SameUserIffSameEmail | backend/src/main/java/com/cursorboard/post/application/PostService.java:49 | with unique ids and emails, two stored users are the same entity iff their emails are equal |
| Domain.FindUserByEmailUnique | backend/src/main/java/com/cursorboard/user/application/UserService.java:30 | with unique emails, `findByEmail` returns the one stored user with that email |
| Domain.FindPostUnique | backend/src/main/java/com/cursorboard/post/application/PostService.java:79-80 | with unique ids, `findById` returns the one stored post with that id |
| Access.DeleteRuleDiffersOnlyThere | backend/src/main/java/com/cursorboard/post/application/PostService.java:65 | the as-written rules differ from owner-or-admin only for post deletion, and there only for the USER owner and the non-owner ADMIN |
| Domain.Message | backend/src/main/java/com/cursorboard/post/application/PostService.java:33-107 | every service error except the authentication failure carries its message |
| Domain.MessagesIdentifyErrors | backend/src/main/java/com/cursorboard/post/application/PostService.java:33-107 | distinct errors carry distinct messages, so matching on the message identifies the error |
| Domain.EmptyStoreValid | backend/src/main/java/com/cursorboard/post/application/PostService.java:22-28 | the empty database satisfies the store invariant |
| PostService.ToCommentResponse | backend/src/main/java/com/cursorboard/post/application/PostService.java:129-136 | the response carries the comment's id, its content and its author's email |
| PostService.ToCommentResponses | backend/src/main/java/com/cursorboard/post/application/PostService.java:114-116 | one response per comment, in the same order |
| PostService.CommentsOf | backend/src/main/java/com/cursorboard/post/application/PostService.java:114 | a post's comments are the stored comments with its id, each as many times as it is stored; none when no comment references it |
| PostService.ToPostResponse | backend/src/main/java/com/cursorboard/post/application/PostService.java:113-127 | the response carries the post's id, title, content and author email; its comment list is, position by position, the responses of the post's comments |
| PostProperties.CommentsOfAppend | backend/src/main/java/com/cursorboard/post/application/PostService.java:114 | a post's comments keep store order: the comments of a concatenation are those of each part, in turn |
| PostProperties.CommentResponseIdentifiesComment | backend/src/main/java/com/cursorboard/post/application/PostService.java:129-136 | with unique comment ids, two stored comments have the same response only if they are the same comment |
| PostService.CreatePost | backend/src/main/java/com/cursorboard/post/application/PostService.java:31-39 | fails with user-not-found iff no user has the email; otherwise appends one post with the next id, the request title and content (stored and returned) and the caller as author; users, comments and the other counters are unchanged |
| PostService.UpdatePost | backend/src/main/java/com/cursorboard/post/application/PostService.java:42-55 | missing post is reported before missing user; errors are only those three; success changes only title and content of that post, keeps ids, authors, users and comments |
| PostService.DeletePost | backend/src/main/java/com/cursorboard/post/application/PostService.java:58-70 | missing post is reported before missing user; success removes the one row with that id, keeping the other posts in order; users, comments and all counters are unchanged |
| PostService.DeletePostIntended | backend/src/test/java/com/cursorboard/post/application/PostServiceTest.java:123-164 | the same operation with the owner-or-admin rule the tests expect; same lookups and errors; success removes the one row with that id, keeping the other posts in order, and changes nothing else |
| PostService.GetAllPosts | backend/src/main/java/com/cursorboard/post/application/PostService.java:72-76 | one response per stored post in store order, each with that post's fields, its author's email, and its comments' responses position by position |
| PostService.GetPost | backend/src/main/java/com/cursorboard/post/application/PostService.java:78-82 | fails with post-not-found iff no post has the id; otherwise returns the fields of a stored post with that id |
| PostService.CreateComment | backend/src/main/java/com/cursorboard/post/application/PostService.java:85-96 | succeeds iff the post and the caller exist; post lookup before user lookup; success appends one comment with the next id, the request content, the caller as author and the post's id, and changes no other table or counter |
| PostService.DeleteComment | backend/src/main/java/com/cursorboard/post/application/PostService.java:99-111 | comment lookup before user lookup; errors are only those three; success removes the one row with that id, keeping the other comments in order; users, posts and all counters are unchanged |
| PostProperties.OwnerIffSameEmail | backend/src/main/java/com/cursorboard/post/application/PostService.java:49 | on a valid store, the post's author is the caller iff the author's email is the caller's email |
| PostProperties.CommentOwnerIffSameEmail | backend/src/main/java/com/cursorboard/post/application/PostService.java:106 | on a valid store, the comment's author is the caller iff their emails agree |
| PostProperties.UpdatePostDecision | backend/src/main/java/com/cursorboard/post/application/PostService.java:42-51 | on a valid store, update succeeds iff post and caller exist and the caller is the author or an ADMIN; otherwise, past the lookups, the error is no-permission-to-edit |
| PostProperties.UpdateThenGet | backend/src/main/java/com/cursorboard/post/application/PostService.java:53-54 | after a successful update, `getPost` returns the update's response, with the new title and content |
| PostProperties.DeletePostDecision | backend/src/main/java/com/cursorboard/post/application/PostService.java:58-67 | on a valid store, delete succeeds iff post and caller exist and the caller is the author AND an ADMIN |
| PostProperties.OwnerWithUserRoleCannotDeletePost | backend/src/main/java/com/cursorboard/post/application/PostService.java:65-67 | the author of a post who has the USER role is refused deletion of it |
| PostProperties.AdminNonOwnerCannotDeletePost | backend/src/main/java/com/cursorboard/post/application/PostService.java:65-67 | an ADMIN who is not the author is refused deletion of the post |
| PostProperties.DeletePostIntendedDecision | backend/src/test/java/com/cursorboard/post/application/PostServiceTest.java:123-164 | with the intended rule, delete succeeds iff post and caller exist and the caller is the author or an ADMIN |
| PostProperties.RemovePostRow | backend/src/main/java/com/cursorboard/post/application/PostService.java:69 | removing a row of a post table with unique ids keeps exactly the posts with another id, still with unique ids |
| PostProperties.RemoveCommentRow | backend/src/main/java/com/cursorboard/post/application/PostService.java:110 | the same for the comment table |
| PostProperties.DeletePostRemovesExactly | backend/src/main/java/com/cursorboard/post/application/PostService.java:69 | after a successful delete the post cannot be read back; the remaining posts are exactly those with other ids; comments and users stay |
| PostProperties.DeletePostIntendedRemovesExactly | backend/src/test/java/com/cursorboard/post/application/PostServiceTest.java:130-134 | the same for deletion under the intended rule |
| PostProperties.DeleteCommentDecision | backend/src/main/java/com/cursorboard/post/application/PostService.java:99-108 | on a valid store, comment delete succeeds iff comment and caller exist and the caller is its author or an ADMIN |
| PostProperties.DeleteCommentRemovesExactly | backend/src/main/java/com/cursorboard/post/application/PostService.java:110 | a successful comment delete keeps exactly the comments with another id, and all posts and users |
| PostProperties.CommentAppearsInDetail | backend/src/main/java/com/cursorboard/post/application/PostService.java:92-95 | after createComment, reading the post succeeds and its comments include the new comment's response |
| PostProperties.CommentListedLast | backend/src/main/java/com/cursorboard/post/application/PostService.java:92-95 | after createComment, the post's detail lists the comments it had before and then the new one |
| PostProperties.NonOwnerPostRefusalMessages | backend/src/test/java/com/cursorboard/post/application/PostServiceTest.java:107-164 | a USER who does not own the post is refused editing and deletion, with the messages "게시글을 수정할 권한이 없습니다." and "게시글을 삭제할 권한이 없습니다." |
| PostProperties.NonOwnerCommentRefusalMessage | backend/src/test/java/com/cursorboard/post/application/PostServiceTest.java:247-262 | a USER who did not write the comment is refused its deletion, with the message "댓글을 삭제할 권한이 없습니다." |
| PostProperties.CreatePostAppends | backend/src/main/java/com/cursorboard/post/application/PostService.java:35-38 | on a valid store, the listing after createPost is the old listing plus the new post's response, whose id is fresh and which has no comments |
| PostProperties.GetAllAgreesWithGetPost | backend/src/main/java/com/cursorboard/post/application/PostService.java:72-82 | with unique ids, the i-th listed response is what `getPost` returns for that post's id |
| PostProperties.CreatePostPreservesValid | backend/src/main/java/com/cursorboard/post/application/PostService.java:35-36 | createPost keeps the store invariant |
| PostProperties.UpdatePostPreservesValid | backend/src/main/java/com/cursorboard/post/application/PostService.java:53 | updatePost keeps the store invariant |
| PostProperties.DeletePostPreservesValid | backend/src/main/java/com/cursorboard/post/application/PostService.java:69 | deletePost keeps the store invariant |
| PostProperties.DeletePostIntendedPreservesValid | backend/src/test/java/com/cursorboard/post/application/PostServiceTest.java:123-149 | deletion under the intended rule keeps the store invariant |
| PostProperties.CreateCommentPreservesValid | backend/src/main/java/com/cursorboard/post/application/PostService.java:92-93 | createComment keeps the store invariant |
| PostProperties.DeleteCommentPreservesValid | backend/src/main/java/com/cursorboard/post/application/PostService.java:110 | deleteComment keeps the store invariant |
| UserService.ExistsByEmail | backend/src/main/java/com/cursorboard/user/application/UserService.java:30 | `existsByEmail` holds iff some stored user has the email |
| UserService.Signup | backend/src/main/java/com/cursorboard/user/application/UserService.java:29-41 | fails with duplicate-email iff some stored user has the email; otherwise appends one user with that email, the encoded password and role USER, and changes nothing else |
| UserService.Authenticate | backend/src/main/java/com/cursorboard/user/application/UserService.java:44-46 | only bad-credentials failures; success returns a stored user with that email whose hash matches the password; an unknown email always fails |
| UserService.Login | backend/src/main/java/com/cursorboard/user/application/UserService.java:43-50 | on success the response email is the request email and the token is issued for a stored matching user's email and role; unknown email fails |
| UserService.SignupPreservesValid | backend/src/main/java/com/cursorboard/user/application/UserService.java:30-39 | signup keeps the store invariant, in particular that no two users share an email |
| UserService.SignupAddsExactlyOne | backend/src/main/java/com/cursorboard/user/application/UserService.java:34-39 | the users after signup are the old ones plus exactly the new one, the only user with that email, which `findByEmail` returns |
| UserService.SignupNeverCreatesAdmin | backend/src/main/java/com/cursorboard/user/application/UserService.java:37 | every ADMIN after signup was already stored before it |
| UserService.SignupTwiceFails | backend/src/main/java/com/cursorboard/user/application/UserService.java:30-32 | signing up again with the same email fails with duplicate-email, whatever the password |
| UserService.LoginSucceedsIff | backend/src/main/java/com/cursorboard/user/application/UserService.java:44-46 | with unique emails, login succeeds iff a stored user has the email and its hash matches the password |
| UserService.SignupThenLogin | backend/src/main/java/com/cursorboard/user/application/UserService.java:29-50 | for an encoder whose hashes match their own passwords, the stored hash matches the raw password and login with the same credentials returns the email and a token issued for it with role USER |
| JwtFilter.ResolveToken | backend/src/main/java/com/cursorboard/security/jwt/JwtAuthenticationFilter.java:48-54 | a token is returned iff the header is present, has text and starts with "Bearer "; the header is then "Bearer " followed by the token |
| JwtFilter.ResolveTokenIff | backend/src/main/java/com/cursorboard/security/jwt/JwtAuthenticationFilter.java:50-53 | `resolveToken` yields t exactly for the header "Bearer " + t, and for no other header |
| JwtFilter.LowerCaseSchemeRejected | backend/src/main/java/com/cursorboard/security/jwt/JwtAuthenticationFilter.java:50 | a "bearer " header yields no token |
| JwtFilter.AuthenticationFor | backend/src/main/java/com/cursorboard/security/jwt/JwtAuthenticationFilter.java:30-41 | the installed principal is named by the token, has no password or credentials, and its only authority is "ROLE_" + the token's role |
| JwtFilter.DoFilterInternal | backend/src/main/java/com/cursorboard/security/jwt/JwtAuthenticationFilter.java:24-46 | the chain is continued exactly once, last; an authentication is installed iff the header carries an accepted token with text, and then it is the token's; otherwise the context is unchanged |
| JwtFilter.BlankBearerNeverAuthenticates | backend/src/main/java/com/cursorboard/security/jwt/JwtAuthenticationFilter.java:29 | "Bearer " followed only by whitespace never authenticates, whatever the provider accepts |
| AuthStore.IsAuthenticated | vue-board/src/store/auth.ts:31-33 | the client is authenticated iff it holds a token that is neither null nor empty |
| AuthStore.Init | vue-board/src/store/auth.ts:8-9 | the store starts with no user and the persisted token, and is authenticated iff that token is non-empty |
| AuthStore.Login | vue-board/src/store/auth.ts:11-22 | a rejected request rethrows and leaves the state unchanged; a resolved one records user and token in memory and in storage and navigates to /posts; authenticated afterwards iff the token is non-empty |
| AuthStore.Logout | vue-board/src/store/auth.ts:24-29 | user, token and stored token are cleared, the client is not authenticated, and it navigates to /login |
| AuthStore.RunKeepsConsistent | vue-board/src/store/auth.ts:9-27 | along any run of logins and logouts the in-memory token equals the stored token |
| AuthStore.AuthenticatedOnlyThroughLogin | vue-board/src/store/auth.ts:11-33 | a client is authenticated after a run only if some login in it returned a non-empty token, or it already was and every action was a rejected login |
| Router.RequiresAuth | vue-board/src/router/index.ts:51 | a location requires auth iff one of its matched records has the flag set to true; an absent flag does not count |
| Router.BeforeEach | vue-board/src/router/index.ts:49-60 | redirects to /login iff a matched record requires auth and the client is anonymous; to /posts iff the target is /login and the client is authenticated; proceeds otherwise |
| Router.StaticMatch | vue-board/src/router/index.ts:4-47 | the records selected are exactly the table's records with that path |
| Router.RedirectTargetsMatchOneRecord | vue-board/src/router/index.ts:10-22 | /login matches only the Login record and /posts only the PostList record |
| Router.NoRedirectLoop | vue-board/src/router/index.ts:49-60 | wherever the guard redirects, the same client is let through at the target |
| Router.UnprotectedRecords | vue-board/src/router/index.ts:6-46 | exactly the four post records require auth; Login, the root redirect and NotFound do not |
| Router.NotFoundIsPublic | vue-board/src/router/index.ts:41-45 | a location matched only by the catch-all is shown to anyone |
| Router.LoginNavigationAccepted | vue-board/src/store/auth.ts:18 | after a login with a non-empty token, the guard lets the navigation to /posts through |
| Router.LogoutNavigationAccepted | vue-board/src/store/auth.ts:28 | after logout, the navigation to /login goes through and every protected location redirects to /login |
| Scenario.RegisterAndLogin | backend/src/test/java/com/cursorboard/integration/BoardIntegrationTest.java:33-55 | a fresh email registers, the store stays valid, and login returns a token issued for that email and USER |
| Scenario.IssuedTokenAuthenticates | backend/src/main/java/com/cursorboard/security/jwt/JwtAuthenticationFilter.java:27-42 | for a provider whose tokens verify, the bearer header of an issued token authenticates as its email with authority "ROLE_" + role |
| Scenario.IssuedTokenLogsClientIn | vue-board/src/store/auth.ts:15-17 | the client storing an issued token is authenticated |
| Scenario.CreateThenEdit | backend/src/test/java/com/cursorboard/integration/BoardIntegrationTest.java:59-117 | a registered user's new post can be edited by them, and reading it back shows the edit |
| Scenario.CommentKeepsPost | backend/src/main/java/com/cursorboard/post/application/PostService.java:85-96 | commenting leaves the post's title and content as they were and adds the comment to its detail |
| Scenario.PostEditCommentFlow | backend/src/test/java/com/cursorboard/integration/BoardIntegrationTest.java:59-117 | a registered user creates, edits and comments on a post; reading it back shows the new title and content and the comment |
| Scenario.IntegrationFlow | backend/src/test/java/com/cursorboard/integration/BoardIntegrationTest.java:33-75 | signup, login, client login and filter chain up: the authenticated name is the registered email with ROLE_USER, and creating a post under it succeeds |

## Findings

| source | as written | input that shows it | evidently intended | confidence | as-written member | corrected member |
|---|---|---|---|---|---|---|
| backend/src/main/java/com/cursorboard/post/application/PostService.java:65 | throws unless the caller is the post's author AND has role ADMIN | a USER deleting their own post (PostServiceTest.java:124-135), or an ADMIN deleting another user's post (PostServiceTest.java:137-149): both get "no permission to delete" | author OR ADMIN, the rule of updatePost (line 49) and deleteComment (line 106) and the rule both tests expect | high; not executed | PostProperties.OwnerWithUserRoleCannotDeletePost | PostService.DeletePostIntended |

`PostService.DeletePost` keeps the rule as written, because it models the
service as written. `PostProperties.AdminNonOwnerCannotDeletePost` shows the
second failing test. `PostService.DeletePostIntended` has the intended rule.
`PostProperties.DeletePostIntendedDecision` and
`PostProperties.DeletePostIntendedRemovesExactly` prove its properties. No
other member of the model deletes posts.

## Errors the code raises

- The services have no error for an anonymous caller. An email with no stored user gets `UserNotFound` (PostService.java:33, :47, :63, :90, :104).
- The filter sees only the boolean result of `validateToken` (JwtAuthenticationFilter.java:29). An invalid token of any kind leaves the request unauthenticated.
- Both login failures, an unknown email and a wrong password, are the single `BadCredentials` error.

## Left out

- JwtTokenProvider (signing, expiry, claims) is not part of this model. `createToken`, `validateToken`, `getUsername` and `getRoleFromToken` are uninterpreted functions. Only the scenario assumes their round trip (`Jwt.IssuesVerifiableTokens`).
- Password hashing is left out. `encode` is an arbitrary deterministic function, so the random salt is folded into it. Only `matches(raw, encode(raw))` is assumed (`UserService.MatchesOwnEncoding`), and only where a lemma needs it.
- The user-details service and the account-status checks of the authentication manager are not part of this model.
- The `User`, `Post` and `Comment` entity classes are not part of this model. `post.update` is taken to set the title and the content.
- Requests are modelled one at a time. Two concurrent signups with the same email could both pass the duplicate check, and that race is not modelled.
- `findAll()` (PostService.java:73) has no ordering clause. The model assumes it lists posts in the order they were stored.
- The client reads `data.token` from the login reply (auth.ts:15-17). The controller wraps the `UserResponse` in `ApiResponse` (UserController.java:28). The model hands the bare `UserResponse` to the client, which holds only if the `api/axios` client unwraps the envelope. That client is not part of this model.
- The order of `post.getComments()` is taken to be the order in which comments were stored. The entity mapping that fixes it is not part of this model.
- Timestamps (`createdAt`, `updatedAt`) are left out.
- Id wrap-around of `Long` is left out: ids are unbounded naturals.
- Deleting a post does not cascade to its comments, because the cascade setting is not part of this model. The comments stay stored, but no later post can take the deleted post's id.
- Controllers, `ApiResponse` wrapping and bean validation (`@Valid`, `@NotBlank`) are left out.
- `SecurityContextHolder` and the servlet objects are left out. The security context is an explicit value that goes in and comes out of the filter.
- The client's HTTP call, `localStorage` and `router.push` are replaced by explicit values: an input reply, a state field and a returned navigation.
- Vue-router path matching and ranking, the `/` → `/posts` redirect record and lazy component loading are left out. The guard takes the matched records as input. `Router.StaticMatch` selects records by exact path only.
- UserService.Login: the thrown exception type (the login tests expect `IllegalArgumentException`) is not modelled. Both failures are the single `BadCredentials` error.
