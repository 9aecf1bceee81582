/** Properties of the board operations: each access decision matches the rule
    stated over identity keys, each mutation does what it says and nothing
    else, reads agree with writes, and the store invariant is kept. */
module PostProperties {
  import opened Wrappers
  import opened Seqs
  import opened Domain
  import opened PostService
  import Access

  /** The post's author is the caller exactly when their emails agree. */
  lemma OwnerIffSameEmail(s: Store, p: Post, u: User)
    requires Valid(s)
    requires p in s.posts && u in s.users
    ensures SameUser(p.author, u) <==> p.author.email == u.email
  {
    SameUserIffSameEmail(s.users, p.author, u);
  }

  /** The comment's author is the caller exactly when their emails agree. */
  lemma CommentOwnerIffSameEmail(s: Store, c: Comment, u: User)
    requires Valid(s)
    requires c in s.comments && u in s.users
    ensures SameUser(c.author, u) <==> c.author.email == u.email
  {
    SameUserIffSameEmail(s.users, c.author, u);
  }

  /** `updatePost` succeeds exactly when the post and the caller exist and the
      caller is the post's author or an administrator; once both lookups
      succeed, the only failure is the edit-permission error. */
  lemma UpdatePostDecision(s: Store, email: string, postId: nat, req: PostRequest)
    requires Valid(s)
    ensures var r := UpdatePost(s, email, postId, req);
      && (r.Success? <==>
            && FindPost(s, postId).Some?
            && FindUserByEmail(s.users, email).Some?
            && Access.Allows(Access.EditPost, email, FindUserByEmail(s.users, email).value.role,
                             FindPost(s, postId).value.author.email))
      && (r.Failure? && FindPost(s, postId).Some? && FindUserByEmail(s.users, email).Some? ==>
            r.error == NoEditPermission)
  {
    var fp := FindPost(s, postId);
    var fu := FindUserByEmail(s.users, email);
    if fp.Some? && fu.Some? {
      OwnerIffSameEmail(s, fp.value, fu.value);
    }
  }

  /** After a successful update, reading the post back returns the response the
      update produced, carrying the new title and content. */
  lemma UpdateThenGet(s: Store, email: string, postId: nat, req: PostRequest)
    requires UpdatePost(s, email, postId, req).Success?
    ensures var (s', resp) := UpdatePost(s, email, postId, req).value;
      && GetPost(s', postId) == Success(resp)
      && resp.title == req.title && resp.content == req.content
  {
    var (s', resp) := UpdatePost(s, email, postId, req).value;
    var i := PostIndex(s.posts, postId);
    var k := PostIndex(s'.posts, postId);
    assert s'.posts == s.posts[i := s'.posts[i]];
    assert k == i;
  }

  /** `deletePost` as written succeeds exactly when the post and the caller
      exist and the caller is both the author AND an administrator. */
  lemma DeletePostDecision(s: Store, email: string, postId: nat)
    requires Valid(s)
    ensures var r := DeletePost(s, email, postId);
      && (r.Success? <==>
            && FindPost(s, postId).Some?
            && FindUserByEmail(s.users, email).Some?
            && Access.Allows(Access.DeletePost, email, FindUserByEmail(s.users, email).value.role,
                             FindPost(s, postId).value.author.email))
      && (r.Failure? && FindPost(s, postId).Some? && FindUserByEmail(s.users, email).Some? ==>
            r.error == NoDeletePermission)
  {
    var fp := FindPost(s, postId);
    var fu := FindUserByEmail(s.users, email);
    if fp.Some? && fu.Some? {
      OwnerIffSameEmail(s, fp.value, fu.value);
    }
  }

  /** The as-written rule refuses the author of a post who has the USER role,
      although the service test for author deletion expects success. */
  lemma OwnerWithUserRoleCannotDeletePost(s: Store, p: Post)
    requires Valid(s)
    requires p in s.posts && p.author.role == USER
    ensures DeletePost(s, p.author.email, p.id) == Failure(NoDeletePermission)
  {
    FindPostUnique(s, p);
    FindUserByEmailUnique(s.users, p.author);
    DeletePostDecision(s, p.author.email, p.id);
  }

  /** The as-written rule refuses an administrator who is not the author,
      although the service test for administrator deletion expects success. */
  lemma AdminNonOwnerCannotDeletePost(s: Store, p: Post, admin: User)
    requires Valid(s)
    requires p in s.posts && admin in s.users
    requires admin.role == ADMIN && admin.email != p.author.email
    ensures DeletePost(s, admin.email, p.id) == Failure(NoDeletePermission)
  {
    FindPostUnique(s, p);
    FindUserByEmailUnique(s.users, admin);
    DeletePostDecision(s, admin.email, p.id);
  }

  /** With the intended rule, deletion succeeds exactly when the post and the
      caller exist and the caller is the author or an administrator. */
  lemma DeletePostIntendedDecision(s: Store, email: string, postId: nat)
    requires Valid(s)
    ensures var r := DeletePostIntended(s, email, postId);
      && (r.Success? <==>
            && FindPost(s, postId).Some?
            && FindUserByEmail(s.users, email).Some?
            && Access.AllowsIntended(email, FindUserByEmail(s.users, email).value.role,
                                     FindPost(s, postId).value.author.email))
      && (r.Failure? && FindPost(s, postId).Some? && FindUserByEmail(s.users, email).Some? ==>
            r.error == NoDeletePermission)
  {
    var fp := FindPost(s, postId);
    var fu := FindUserByEmail(s.users, email);
    if fp.Some? && fu.Some? {
      OwnerIffSameEmail(s, fp.value, fu.value);
    }
  }

  /** Removing one row of a post table with unique ids keeps exactly the posts
      with a different id, and the ids stay unique. */
  lemma RemovePostRow(posts: seq<Post>, i: nat)
    requires UniquePostIds(posts) && i < |posts|
    ensures forall q :: q in RemoveAt(posts, i) <==> q in posts && q.id != posts[i].id
    ensures UniquePostIds(RemoveAt(posts, i))
  {
    var r := RemoveAt(posts, i);
    forall q ensures q in r <==> q in posts && q.id != posts[i].id {
      RemoveAtMembership(posts, i, q);
    }
    forall a, b | 0 <= a < |r| && 0 <= b < |r| && a != b ensures r[a].id != r[b].id {
      var a0 := if a < i then a else a + 1;
      var b0 := if b < i then b else b + 1;
      assert r[a] == posts[a0] && r[b] == posts[b0];
    }
  }

  /** Removing one row of a comment table with unique ids keeps exactly the
      comments with a different id, and the ids stay unique. */
  lemma RemoveCommentRow(comments: seq<Comment>, i: nat)
    requires UniqueCommentIds(comments) && i < |comments|
    ensures forall c :: c in RemoveAt(comments, i) <==> c in comments && c.id != comments[i].id
    ensures UniqueCommentIds(RemoveAt(comments, i))
  {
    var r := RemoveAt(comments, i);
    forall c ensures c in r <==> c in comments && c.id != comments[i].id {
      RemoveAtMembership(comments, i, c);
    }
    forall a, b | 0 <= a < |r| && 0 <= b < |r| && a != b ensures r[a].id != r[b].id {
      var a0 := if a < i then a else a + 1;
      var b0 := if b < i then b else b + 1;
      assert r[a] == comments[a0] && r[b] == comments[b0];
    }
  }

  /** A successful `deletePost` removes exactly the post with that id: reading
      it back fails, and every other post, every comment and every user stays. */
  lemma DeletePostRemovesExactly(s: Store, email: string, postId: nat)
    requires Valid(s)
    requires DeletePost(s, email, postId).Success?
    ensures var s' := DeletePost(s, email, postId).value;
      && GetPost(s', postId) == Failure(PostNotFound)
      && (forall q :: q in s'.posts <==> q in s.posts && q.id != postId)
      && s'.comments == s.comments && s'.users == s.users
  {
    var s' := DeletePost(s, email, postId).value;
    var i := PostIndex(s.posts, postId);
    assert i < |s.posts| && s.posts[i].id == postId;
    assert s'.posts == RemoveAt(s.posts, i);
    RemovePostRow(s.posts, i);
    assert forall q :: q in s'.posts ==> q.id != postId;
  }

  /** The same for deletion under the intended rule. */
  lemma DeletePostIntendedRemovesExactly(s: Store, email: string, postId: nat)
    requires Valid(s)
    requires DeletePostIntended(s, email, postId).Success?
    ensures var s' := DeletePostIntended(s, email, postId).value;
      && GetPost(s', postId) == Failure(PostNotFound)
      && (forall q :: q in s'.posts <==> q in s.posts && q.id != postId)
      && s'.comments == s.comments && s'.users == s.users
  {
    var s' := DeletePostIntended(s, email, postId).value;
    var i := PostIndex(s.posts, postId);
    assert i < |s.posts| && s.posts[i].id == postId;
    assert s'.posts == RemoveAt(s.posts, i);
    RemovePostRow(s.posts, i);
    assert forall q :: q in s'.posts ==> q.id != postId;
  }

  /** `deleteComment` succeeds exactly when the comment and the caller exist
      and the caller is the comment's author or an administrator. */
  lemma DeleteCommentDecision(s: Store, email: string, commentId: nat)
    requires Valid(s)
    ensures var r := DeleteComment(s, email, commentId);
      && (r.Success? <==>
            && FindComment(s, commentId).Some?
            && FindUserByEmail(s.users, email).Some?
            && Access.Allows(Access.DeleteComment, email, FindUserByEmail(s.users, email).value.role,
                             FindComment(s, commentId).value.author.email))
      && (r.Failure? && FindComment(s, commentId).Some? && FindUserByEmail(s.users, email).Some? ==>
            r.error == NoCommentDeletePermission)
  {
    var fc := FindComment(s, commentId);
    var fu := FindUserByEmail(s.users, email);
    if fc.Some? && fu.Some? {
      CommentOwnerIffSameEmail(s, fc.value, fu.value);
    }
  }

  /** A successful comment deletion removes exactly the comment with that id:
      every other comment, every post and every user stays. */
  lemma DeleteCommentRemovesExactly(s: Store, email: string, commentId: nat)
    requires Valid(s)
    requires DeleteComment(s, email, commentId).Success?
    ensures var s' := DeleteComment(s, email, commentId).value;
      && (forall c :: c in s'.comments <==> c in s.comments && c.id != commentId)
      && s'.posts == s.posts && s'.users == s.users
  {
    RemoveCommentRow(s.comments, CommentIndex(s.comments, commentId));
  }

  /** A new comment is part of its post's detail right after it is created. */
  lemma CommentAppearsInDetail(s: Store, email: string, postId: nat, req: CommentRequest)
    requires CreateComment(s, email, postId, req).Success?
    ensures var (s', resp) := CreateComment(s, email, postId, req).value;
      && GetPost(s', postId).Success?
      && resp in GetPost(s', postId).value.comments
  {
    var (s', resp) := CreateComment(s, email, postId, req).value;
    var c := s'.comments[|s.comments|];
    assert c in s'.comments;
    assert ToCommentResponse(c) == resp;
  }

  /** A post's comments keep store order: the comments of a concatenation are
      the comments of each part, in turn. */
  lemma {:induction false} CommentsOfAppend(a: seq<Comment>, b: seq<Comment>, postId: nat)
    ensures CommentsOf(a + b, postId) == CommentsOf(a, postId) + CommentsOf(b, postId)
    decreases |a|
  {
    if |a| == 0 {
      assert a + b == b;
    } else {
      assert (a + b)[1..] == a[1..] + b;
      CommentsOfAppend(a[1..], b, postId);
    }
  }

  /** A post's detail lists the responses of its comments, in order. */
  lemma DetailComments(s: Store, p: Post)
    ensures ToPostResponse(s, p).comments == ToCommentResponses(CommentsOf(s.comments, p.id))
  {
  }

  /** Converting a list with one more comment gives one more response, at the end. */
  lemma ResponsesOfAppend(cs: seq<Comment>, c: Comment)
    ensures ToCommentResponses(cs + [c]) == ToCommentResponses(cs) + [ToCommentResponse(c)]
  {
  }

  /** A new comment is listed last in its post's detail, after the comments
      that were there before. */
  lemma CommentListedLast(s: Store, email: string, postId: nat, req: CommentRequest)
    requires CreateComment(s, email, postId, req).Success?
    ensures var (s', resp) := CreateComment(s, email, postId, req).value;
      && GetPost(s, postId).Success? && GetPost(s', postId).Success?
      && GetPost(s', postId).value.comments == GetPost(s, postId).value.comments + [resp]
  {
    var (s', resp) := CreateComment(s, email, postId, req).value;
    var c := s'.comments[|s.comments|];
    var p := FindPost(s, postId).value;
    assert FindPost(s', postId) == Some(p);
    assert s'.comments == s.comments + [c];
    CommentsOfAppend(s.comments, [c], p.id);
    assert CommentsOf([c], p.id) == [c];
    DetailComments(s, p);
    DetailComments(s', p);
    ResponsesOfAppend(CommentsOf(s.comments, p.id), c);
  }

  /** With unique comment ids, a comment response identifies the stored
      comment it was converted from. */
  lemma CommentResponseIdentifiesComment(s: Store, c: Comment, d: Comment)
    requires Valid(s)
    requires c in s.comments && d in s.comments
    ensures ToCommentResponse(c) == ToCommentResponse(d) <==> c == d
  {
    var i :| 0 <= i < |s.comments| && s.comments[i] == c;
    var j :| 0 <= j < |s.comments| && s.comments[j] == d;
    if ToCommentResponse(c) == ToCommentResponse(d) {
      assert i == j;
    }
  }

  /** A plain user who does not own the post is refused with the messages the
      service raises for editing and deleting it. */
  lemma NonOwnerPostRefusalMessages(s: Store, u: User, p: Post, req: PostRequest)
    requires Valid(s)
    requires u in s.users && u.role == USER
    requires p in s.posts && p.author.email != u.email
    ensures UpdatePost(s, u.email, p.id, req).Failure?
    ensures Message(UpdatePost(s, u.email, p.id, req).error) == Some("게시글을 수정할 권한이 없습니다.")
    ensures DeletePost(s, u.email, p.id).Failure?
    ensures Message(DeletePost(s, u.email, p.id).error) == Some("게시글을 삭제할 권한이 없습니다.")
    ensures DeletePostIntended(s, u.email, p.id).Failure?
    ensures Message(DeletePostIntended(s, u.email, p.id).error) == Some("게시글을 삭제할 권한이 없습니다.")
  {
    FindPostUnique(s, p);
    FindUserByEmailUnique(s.users, u);
    OwnerIffSameEmail(s, p, u);
  }

  /** A plain user who did not write the comment is refused with the message
      the service raises for deleting it. */
  lemma NonOwnerCommentRefusalMessage(s: Store, u: User, c: Comment)
    requires Valid(s)
    requires u in s.users && u.role == USER
    requires c in s.comments && c.author.email != u.email
    ensures DeleteComment(s, u.email, c.id).Failure?
    ensures Message(DeleteComment(s, u.email, c.id).error) == Some("댓글을 삭제할 권한이 없습니다.")
  {
    var i :| 0 <= i < |s.comments| && s.comments[i] == c;
    var k := CommentIndex(s.comments, c.id);
    assert k == i;
    FindUserByEmailUnique(s.users, u);
    CommentOwnerIffSameEmail(s, c, u);
  }

  /** `createPost` appends exactly one response to the post listing: the new
      post, with a fresh id, the caller as author and no comments. */
  lemma CreatePostAppends(s: Store, email: string, req: PostRequest)
    requires Valid(s)
    requires CreatePost(s, email, req).Success?
    ensures var (s', resp) := CreatePost(s, email, req).value;
      && GetAllPosts(s') == GetAllPosts(s) + [resp]
      && resp.comments == []
      && (forall p :: p in s.posts ==> p.id != resp.id)
  {
    var (s', resp) := CreatePost(s, email, req).value;
    var all, all' := GetAllPosts(s), GetAllPosts(s');
    forall i | 0 <= i < |s.posts| ensures all'[i] == all[i] {
      assert s'.posts[i] == s.posts[i];
    }
    assert all' == all + [resp];
  }

  /** The listing and the detail view agree: the i-th listed post is what
      `getPost` returns for its id. */
  lemma GetAllAgreesWithGetPost(s: Store, i: nat)
    requires UniquePostIds(s.posts)
    requires i < |s.posts|
    ensures GetPost(s, s.posts[i].id) == Success(GetAllPosts(s)[i])
  {
    assert s.posts[i] in s.posts;
    FindPostUnique(s, s.posts[i]);
  }

  lemma CreatePostPreservesValid(s: Store, email: string, req: PostRequest)
    requires Valid(s)
    requires CreatePost(s, email, req).Success?
    ensures Valid(CreatePost(s, email, req).value.0)
  {
  }

  lemma UpdatePostPreservesValid(s: Store, email: string, postId: nat, req: PostRequest)
    requires Valid(s)
    requires UpdatePost(s, email, postId, req).Success?
    ensures Valid(UpdatePost(s, email, postId, req).value.0)
  {
    var s' := UpdatePost(s, email, postId, req).value.0;
    forall p | p in s'.posts ensures p.id < s'.nextPostId && p.author in s'.users {
      var j :| 0 <= j < |s'.posts| && s'.posts[j] == p;
      assert s.posts[j] in s.posts;
    }
  }

  lemma DeletePostPreservesValid(s: Store, email: string, postId: nat)
    requires Valid(s)
    requires DeletePost(s, email, postId).Success?
    ensures Valid(DeletePost(s, email, postId).value)
  {
    var i := PostIndex(s.posts, postId);
    assert DeletePost(s, email, postId).value == s.(posts := RemoveAt(s.posts, i));
    RemovePostRow(s.posts, i);
  }

  lemma DeletePostIntendedPreservesValid(s: Store, email: string, postId: nat)
    requires Valid(s)
    requires DeletePostIntended(s, email, postId).Success?
    ensures Valid(DeletePostIntended(s, email, postId).value)
  {
    var i := PostIndex(s.posts, postId);
    assert DeletePostIntended(s, email, postId).value == s.(posts := RemoveAt(s.posts, i));
    RemovePostRow(s.posts, i);
  }

  lemma CreateCommentPreservesValid(s: Store, email: string, postId: nat, req: CommentRequest)
    requires Valid(s)
    requires CreateComment(s, email, postId, req).Success?
    ensures Valid(CreateComment(s, email, postId, req).value.0)
  {
  }

  lemma DeleteCommentPreservesValid(s: Store, email: string, commentId: nat)
    requires Valid(s)
    requires DeleteComment(s, email, commentId).Success?
    ensures Valid(DeleteComment(s, email, commentId).value)
  {
    var i := CommentIndex(s.comments, commentId);
    assert DeleteComment(s, email, commentId).value == s.(comments := RemoveAt(s.comments, i));
    RemoveCommentRow(s.comments, i);
  }
}
