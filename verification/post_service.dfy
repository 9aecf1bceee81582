/** `PostService`: posts and comments with ownership-based access control.
    Every operation is a transition of the store. A `Failure` result is the
    exception the service throws; the surrounding transaction then rolls back,
    so the caller's store is left as it was. */
module PostService {
  import opened Wrappers
  import opened Seqs
  import opened Domain
  import Access

  /** `convertToCommentResponse`: the comment's id and content and its
      author's email. */
  function ToCommentResponse(c: Comment): (r: CommentResponse)
    ensures r.id == c.id && r.content == c.content && r.authorEmail == c.author.email
  {
    CommentResponse(c.id, c.content, c.author.email)
  }

  /** `post.getComments()`: the comments stored for a post, in store order. */
  function CommentsOf(comments: seq<Comment>, postId: nat): (r: seq<Comment>)
    ensures forall c :: c in r <==> c in comments && c.postId == postId
    ensures forall c :: multiset(r)[c] == if c.postId == postId then multiset(comments)[c] else 0
    ensures (forall c :: c in comments ==> c.postId != postId) ==> r == []
  {
    if |comments| == 0 then []
    else
      assert comments == [comments[0]] + comments[1..];
      if comments[0].postId == postId then [comments[0]] + CommentsOf(comments[1..], postId)
      else CommentsOf(comments[1..], postId)
  }

  /** The comment responses of a list of comments, element by element. */
  function ToCommentResponses(cs: seq<Comment>): (r: seq<CommentResponse>)
    ensures |r| == |cs|
    ensures forall i :: 0 <= i < |r| ==> r[i] == ToCommentResponse(cs[i])
    ensures forall cr :: cr in r <==> exists c :: c in cs && ToCommentResponse(c) == cr
  {
    var r := seq(|cs|, i requires 0 <= i < |cs| => ToCommentResponse(cs[i]));
    assert forall c :: c in cs ==> ToCommentResponse(c) in r by {
      forall c | c in cs ensures ToCommentResponse(c) in r {
        var i :| 0 <= i < |cs| && cs[i] == c;
        assert r[i] == ToCommentResponse(c);
      }
    }
    r
  }

  /** `convertToPostResponse`: the post's own fields, its author's email, and
      one response for each of its comments. */
  function ToPostResponse(s: Store, p: Post): (r: PostResponse)
    ensures r.id == p.id && r.title == p.title && r.content == p.content
    ensures r.authorEmail == p.author.email
    ensures forall cr :: cr in r.comments <==>
      exists c :: c in s.comments && c.postId == p.id && ToCommentResponse(c) == cr
    ensures |r.comments| == |CommentsOf(s.comments, p.id)|
    ensures forall i :: 0 <= i < |r.comments| ==> r.comments[i] == ToCommentResponse(CommentsOf(s.comments, p.id)[i])
  {
    var cs := CommentsOf(s.comments, p.id);
    var crs := ToCommentResponses(cs);
    assert forall cr :: cr in crs <==> exists c :: c in cs && ToCommentResponse(c) == cr;
    PostResponse(p.id, p.title, p.content, p.author.email, crs)
  }

  /** `createPost`: the caller must be a registered user; the new post gets the
      next id and is owned by that user. */
  function CreatePost(s: Store, email: string, req: PostRequest): (r: Result<(Store, PostResponse), Error>)
    ensures r.Failure? <==> forall u :: u in s.users ==> u.email != email
    ensures r.Failure? ==> r.error == UserNotFound
    ensures r.Success? ==>
      var (s', resp) := r.value;
      && resp.title == req.title && resp.content == req.content && resp.authorEmail == email
      && resp.id == s.nextPostId && s'.nextPostId > resp.id
      && s'.users == s.users && s'.comments == s.comments
      && |s'.posts| == |s.posts| + 1 && s'.posts[..|s.posts|] == s.posts
      && s'.posts[|s.posts|].id == resp.id && s'.posts[|s.posts|].author.email == email
      && s'.posts[|s.posts|].title == req.title && s'.posts[|s.posts|].content == req.content
      && s'.nextUserId == s.nextUserId && s'.nextCommentId == s.nextCommentId
  {
    match FindUserByEmail(s.users, email)
    case None => Failure(UserNotFound)
    case Some(u) =>
      var p := Post(s.nextPostId, req.title, req.content, u);
      var s' := s.(posts := s.posts + [p], nextPostId := s.nextPostId + 1);
      assert s'.posts[..|s.posts|] == s.posts;
      Success((s', ToPostResponse(s', p)))
  }

  /** `updatePost`: post lookup, then user lookup, then the edit permission
      (owner or administrator), then the title and content are replaced. */
  function UpdatePost(s: Store, email: string, postId: nat, req: PostRequest): (r: Result<(Store, PostResponse), Error>)
    ensures FindPost(s, postId).None? ==> r == Failure(PostNotFound)
    ensures FindPost(s, postId).Some? && FindUserByEmail(s.users, email).None? ==> r == Failure(UserNotFound)
    ensures r.Failure? ==> r.error in {PostNotFound, UserNotFound, NoEditPermission}
    ensures r.Success? ==>
      var (s', resp) := r.value;
      && resp.id == postId && resp.title == req.title && resp.content == req.content
      && s'.users == s.users && s'.comments == s.comments
      && s'.nextUserId == s.nextUserId && s'.nextPostId == s.nextPostId && s'.nextCommentId == s.nextCommentId
      && |s'.posts| == |s.posts|
      && (forall j :: 0 <= j < |s.posts| ==>
            && s'.posts[j].id == s.posts[j].id
            && s'.posts[j].author == s.posts[j].author
            && (s.posts[j].id != postId ==> s'.posts[j] == s.posts[j]))
  {
    var i := PostIndex(s.posts, postId);
    if i == |s.posts| then Failure(PostNotFound)
    else
      match FindUserByEmail(s.users, email)
      case None => Failure(UserNotFound)
      case Some(u) =>
        var p := s.posts[i];
        if !SameUser(p.author, u) && u.role != ADMIN then Failure(NoEditPermission)
        else
          var p' := p.(title := req.title, content := req.content);
          var s' := s.(posts := s.posts[i := p']);
          Success((s', ToPostResponse(s', p')))
  }

  /** `deletePost`, as written: the guard throws unless the caller is the
      owner AND an administrator. */
  function DeletePost(s: Store, email: string, postId: nat): (r: Result<Store, Error>)
    ensures FindPost(s, postId).None? ==> r == Failure(PostNotFound)
    ensures FindPost(s, postId).Some? && FindUserByEmail(s.users, email).None? ==> r == Failure(UserNotFound)
    ensures r.Failure? ==> r.error in {PostNotFound, UserNotFound, NoDeletePermission}
    ensures r.Success? ==>
      && FindPost(s, postId).Some?
      && multiset(r.value.posts) == multiset(s.posts) - multiset{FindPost(s, postId).value}
      && r.value.users == s.users && r.value.comments == s.comments
      && r.value.nextUserId == s.nextUserId && r.value.nextPostId == s.nextPostId
      && r.value.nextCommentId == s.nextCommentId
    ensures r.Success? ==>
      exists i :: 0 <= i < |s.posts| && s.posts[i].id == postId && r.value.posts == s.posts[..i] + s.posts[i + 1..]
  {
    var i := PostIndex(s.posts, postId);
    if i == |s.posts| then Failure(PostNotFound)
    else
      match FindUserByEmail(s.users, email)
      case None => Failure(UserNotFound)
      case Some(u) =>
        if !SameUser(s.posts[i].author, u) || u.role != ADMIN then Failure(NoDeletePermission)
        else Success(s.(posts := RemoveAt(s.posts, i)))
  }

  /** Post deletion with the owner-OR-administrator rule that the service's
      own tests expect; the same lookups and effect as `DeletePost`. */
  function DeletePostIntended(s: Store, email: string, postId: nat): (r: Result<Store, Error>)
    ensures FindPost(s, postId).None? ==> r == Failure(PostNotFound)
    ensures FindPost(s, postId).Some? && FindUserByEmail(s.users, email).None? ==> r == Failure(UserNotFound)
    ensures r.Failure? ==> r.error in {PostNotFound, UserNotFound, NoDeletePermission}
    ensures r.Success? ==>
      && FindPost(s, postId).Some?
      && multiset(r.value.posts) == multiset(s.posts) - multiset{FindPost(s, postId).value}
      && r.value.users == s.users && r.value.comments == s.comments
      && r.value.nextUserId == s.nextUserId && r.value.nextPostId == s.nextPostId
      && r.value.nextCommentId == s.nextCommentId
    ensures r.Success? ==>
      exists i :: 0 <= i < |s.posts| && s.posts[i].id == postId && r.value.posts == s.posts[..i] + s.posts[i + 1..]
  {
    var i := PostIndex(s.posts, postId);
    if i == |s.posts| then Failure(PostNotFound)
    else
      match FindUserByEmail(s.users, email)
      case None => Failure(UserNotFound)
      case Some(u) =>
        if !SameUser(s.posts[i].author, u) && u.role != ADMIN then Failure(NoDeletePermission)
        else Success(s.(posts := RemoveAt(s.posts, i)))
  }

  /** `getAllPosts`: one response per stored post, in store order. */
  function GetAllPosts(s: Store): (r: seq<PostResponse>)
    ensures |r| == |s.posts|
    ensures forall i :: 0 <= i < |r| ==>
      && r[i].id == s.posts[i].id
      && r[i].title == s.posts[i].title && r[i].content == s.posts[i].content
      && r[i].authorEmail == s.posts[i].author.email
      && (forall cr :: cr in r[i].comments <==>
            exists c :: c in s.comments && c.postId == s.posts[i].id && ToCommentResponse(c) == cr)
      && |r[i].comments| == |CommentsOf(s.comments, s.posts[i].id)|
      && (forall k :: 0 <= k < |r[i].comments| ==>
            r[i].comments[k] == ToCommentResponse(CommentsOf(s.comments, s.posts[i].id)[k]))
  {
    seq(|s.posts|, i requires 0 <= i < |s.posts| => ToPostResponse(s, s.posts[i]))
  }

  /** `getPost`: the detail of one post, or the not-found error. */
  function GetPost(s: Store, postId: nat): (r: Result<PostResponse, Error>)
    ensures r.Failure? <==> forall p :: p in s.posts ==> p.id != postId
    ensures r.Failure? ==> r.error == PostNotFound
    ensures r.Success? ==> r.value.id == postId
    ensures r.Success? ==>
      exists p :: p in s.posts && p.id == postId && r.value.title == p.title
        && r.value.content == p.content && r.value.authorEmail == p.author.email
  {
    match FindPost(s, postId)
    case None => Failure(PostNotFound)
    case Some(p) => Success(ToPostResponse(s, p))
  }

  /** `createComment`: post lookup, then user lookup; the new comment gets the
      next id and belongs to that post and that user. */
  function CreateComment(s: Store, email: string, postId: nat, req: CommentRequest): (r: Result<(Store, CommentResponse), Error>)
    ensures r.Success? <==> FindPost(s, postId).Some? && FindUserByEmail(s.users, email).Some?
    ensures FindPost(s, postId).None? ==> r == Failure(PostNotFound)
    ensures FindPost(s, postId).Some? && FindUserByEmail(s.users, email).None? ==> r == Failure(UserNotFound)
    ensures r.Failure? ==> r.error in {PostNotFound, UserNotFound}
    ensures r.Success? ==>
      var (s', resp) := r.value;
      && resp.content == req.content && resp.authorEmail == email && resp.id == s.nextCommentId
      && s'.users == s.users && s'.posts == s.posts
      && s'.nextUserId == s.nextUserId && s'.nextPostId == s.nextPostId
      && s'.nextCommentId > resp.id
      && |s'.comments| == |s.comments| + 1 && s'.comments[..|s.comments|] == s.comments
      && var c := s'.comments[|s.comments|];
         c.id == resp.id && c.postId == postId && c.content == req.content && c.author.email == email
  {
    match FindPost(s, postId)
    case None => Failure(PostNotFound)
    case Some(p) =>
      match FindUserByEmail(s.users, email)
      case None => Failure(UserNotFound)
      case Some(u) =>
        var c := Comment(s.nextCommentId, req.content, u, p.id);
        var s' := s.(comments := s.comments + [c], nextCommentId := s.nextCommentId + 1);
        assert s'.comments[..|s.comments|] == s.comments;
        Success((s', ToCommentResponse(c)))
  }

  /** `deleteComment`: comment lookup, then user lookup, then the owner-or-
      administrator check, then the comment is removed. */
  function DeleteComment(s: Store, email: string, commentId: nat): (r: Result<Store, Error>)
    ensures FindComment(s, commentId).None? ==> r == Failure(CommentNotFound)
    ensures FindComment(s, commentId).Some? && FindUserByEmail(s.users, email).None? ==> r == Failure(UserNotFound)
    ensures r.Failure? ==> r.error in {CommentNotFound, UserNotFound, NoCommentDeletePermission}
    ensures r.Success? ==>
      && FindComment(s, commentId).Some?
      && multiset(r.value.comments) == multiset(s.comments) - multiset{FindComment(s, commentId).value}
      && r.value.users == s.users && r.value.posts == s.posts
      && r.value.nextUserId == s.nextUserId && r.value.nextPostId == s.nextPostId
      && r.value.nextCommentId == s.nextCommentId
    ensures r.Success? ==>
      exists i :: 0 <= i < |s.comments| && s.comments[i].id == commentId
        && r.value.comments == s.comments[..i] + s.comments[i + 1..]
  {
    var i := CommentIndex(s.comments, commentId);
    if i == |s.comments| then Failure(CommentNotFound)
    else
      match FindUserByEmail(s.users, email)
      case None => Failure(UserNotFound)
      case Some(u) =>
        if !SameUser(s.comments[i].author, u) && u.role != ADMIN then Failure(NoCommentDeletePermission)
        else Success(s.(comments := RemoveAt(s.comments, i)))
  }
}
