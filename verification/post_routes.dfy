/** The post and comment routes over the post and comment tables. */
module PostRoutes {
  import opened Wrappers
  import opened Errors
  import opened Database

  /** The body of the post-with-comments response. */
  datatype PostWithComments = PostWithComments(post: PostRow, comments: seq<CommentRow>)

  /** `find_post`: the post with id `postId`, or nothing. */
  function FindPost(posts: seq<PostRow>, postId: int): (r: Option<PostRow>)
    ensures r.Some? ==> r.value in posts && r.value.id == postId
    ensures r.None? <==> forall p :: p in posts ==> p.id != postId
  {
    if |posts| == 0 then None
    else if posts[0].id == postId then Some(posts[0])
    else FindPost(posts[1..], postId)
  }

  /** `create_post`: insert the body under the next post id (no `user_id` is written)
      and return the inserted fields with that id. */
  function CreatePost(store: Store, body: string): (r: Transition<PostRow>)
    ensures r.response.Ok?
    ensures r.response.value.body == body && r.response.value.userId.None?
    ensures forall p :: p in store.posts ==> p.id < r.response.value.id
    ensures r.store.posts == store.posts + [r.response.value]
    ensures r.store.users == store.users && r.store.comments == store.comments
    ensures WellFormed(store) ==> WellFormed(r.store)
  {
    var row := PostRow(NextRowId(Ids(store.posts, PostId)), body, None);
    BelowNextRowId(store.posts, PostId);
    var store' := store.(posts := store.posts + [row]);
    assert Ids(store'.posts, PostId) == Ids(store.posts, PostId) + [row.id];
    assert CommentsReferencePosts(store) ==> CommentsReferencePosts(store') by {
      if CommentsReferencePosts(store) {
        forall c | c in store'.comments
          ensures exists p :: p in store'.posts && p.id == c.postId
        {
          var p :| p in store.posts && p.id == c.postId;
          assert p in store'.posts;
        }
      }
    }
    Transition(store', Ok(row))
  }

  /** `get_all_posts`: every row of the post table, in rowid order. */
  function GetAllPosts(store: Store): (r: seq<PostRow>)
    ensures |r| == |store.posts|
    ensures forall i :: 0 <= i < |r| ==> r[i] == store.posts[i]
  {
    store.posts
  }

  /** `create_comment`: a comment on a post id with no post raises 404 "Post not found"
      and inserts nothing; otherwise the comment is inserted under the next comment id
      and its fields are returned with that id. */
  function CreateComment(store: Store, body: string, postId: int): (r: Transition<CommentRow>)
    ensures r.response.Err? <==> forall p :: p in store.posts ==> p.id != postId
    ensures r.response.Err? ==> r.response.error == PostNotFoundError && r.store == store
    ensures r.response.Ok? ==>
      && r.response.value.body == body
      && r.response.value.postId == postId
      && r.response.value.userId.None?
      && (forall c :: c in store.comments ==> c.id < r.response.value.id)
      && r.store.comments == store.comments + [r.response.value]
      && r.store.users == store.users
      && r.store.posts == store.posts
    ensures WellFormed(store) ==> WellFormed(r.store)
  {
    if FindPost(store.posts, postId).None? then Transition(store, Err(PostNotFoundError))
    else
      var row := CommentRow(NextRowId(Ids(store.comments, CommentId)), body, postId, None);
      BelowNextRowId(store.comments, CommentId);
      var store' := store.(comments := store.comments + [row]);
      assert Ids(store'.comments, CommentId) == Ids(store.comments, CommentId) + [row.id];
      assert CommentsReferencePosts(store) ==> CommentsReferencePosts(store') by {
        if CommentsReferencePosts(store) {
          forall c | c in store'.comments
            ensures exists p :: p in store'.posts && p.id == c.postId
          {
            if c == row {
              assert FindPost(store.posts, postId).value in store.posts;
            }
          }
        }
      }
      Transition(store', Ok(row))
  }

  /** `get_comments_on_post`: exactly the comments whose post id is `postId`, in table
      order; empty when there are none. */
  function GetCommentsOnPost(comments: seq<CommentRow>, postId: int): (r: seq<CommentRow>)
    ensures forall c :: c in r <==> c in comments && c.postId == postId
    ensures |r| <= |comments|
  {
    if |comments| == 0 then []
    else
      var rest := GetCommentsOnPost(comments[1..], postId);
      assert forall c :: c in comments <==> c == comments[0] || c in comments[1..];
      if comments[0].postId == postId then [comments[0]] + rest else rest
  }

  /** `get_post_with_comments`: 404 for a missing post; otherwise the post together with
      exactly the comments on it. */
  function GetPostWithComments(store: Store, postId: int): (r: Result<PostWithComments, Error>)
    ensures r.Err? <==> forall p :: p in store.posts ==> p.id != postId
    ensures r.Err? ==> r.error == PostNotFoundError
    ensures r.Ok? ==>
      && r.value.post in store.posts
      && r.value.post.id == postId
      && (forall c :: c in r.value.comments <==> c in store.comments && c.postId == postId)
      && r.value.comments == GetCommentsOnPost(store.comments, postId)
  {
    match FindPost(store.posts, postId)
    case None => Err(PostNotFoundError)
    case Some(post) => Ok(PostWithComments(post, GetCommentsOnPost(store.comments, postId)))
  }

  /** Appending a comment extends the listing of its own post by that comment, in order,
      and leaves the listing of every other post as it was. */
  lemma {:induction false} CommentsOnPostAppend(comments: seq<CommentRow>, c: CommentRow, postId: int)
    ensures GetCommentsOnPost(comments + [c], postId) ==
      GetCommentsOnPost(comments, postId) + (if c.postId == postId then [c] else [])
  {
    if |comments| == 0 {
      assert comments + [c] == [c];
      assert GetCommentsOnPost([c], postId)
          == (if c.postId == postId then [c] else []) + GetCommentsOnPost([], postId);
    } else {
      var tail := comments[1..];
      assert (comments + [c])[1..] == tail + [c];
      CommentsOnPostAppend(tail, c, postId);
    }
  }

  /** A post just created is listed by `get_all_posts` and found by `find_post`. */
  lemma CreatedPostIsListed(store: Store, body: string)
    ensures var r := CreatePost(store, body);
      && r.response.value in GetAllPosts(r.store)
      && FindPost(r.store.posts, r.response.value.id) == Some(r.response.value)
  {
    var r := CreatePost(store, body);
    var found := FindPost(r.store.posts, r.response.value.id);
    assert r.response.value in r.store.posts;
    assert found.value !in store.posts;
  }

  /** A post id no comment refers to lists no comments. */
  lemma NoCommentsListedEmpty(comments: seq<CommentRow>, postId: int)
    requires forall c :: c in comments ==> c.postId != postId
    ensures GetCommentsOnPost(comments, postId) == []
  {
  }

  /** In a store whose comments all refer to existing posts (which `create_comment`'s 404
      check maintains), a fresh post id has no comments. */
  lemma FreshPostHasNoComments(store: Store, postId: int)
    requires CommentsReferencePosts(store)
    requires forall p :: p in store.posts ==> p.id < postId
    ensures GetCommentsOnPost(store.comments, postId) == []
  {
    forall c | c in store.comments ensures c.postId != postId {
      var p :| p in store.posts && p.id == c.postId;
    }
    NoCommentsListedEmpty(store.comments, postId);
  }

  /** Creating a post and then a comment on it: the post-with-comments view shows that post
      with exactly that one comment (in a well-formed store no comment can already refer
      to a fresh post id). */
  lemma PostThenComment(store: Store, postBody: string, commentBody: string)
    requires CommentsReferencePosts(store)
    ensures var s1 := CreatePost(store, postBody);
      var post := s1.response.value;
      var s2 := CreateComment(s1.store, commentBody, post.id);
      && s2.response.Ok?
      && GetPostWithComments(s2.store, post.id) == Ok(PostWithComments(post, [s2.response.value]))
  {
    var s1 := CreatePost(store, postBody);
    var post := s1.response.value;
    CreatedPostIsListed(store, postBody);
    var s2 := CreateComment(s1.store, commentBody, post.id);
    assert s2.response.Ok?;
    var comment := s2.response.value;
    FreshPostHasNoComments(store, post.id);
    CommentsOnPostAppend(store.comments, comment, post.id);
    assert s2.store.comments == store.comments + [comment];
    assert GetCommentsOnPost(s2.store.comments, post.id) == [comment];
    assert FindPost(s2.store.posts, post.id) == Some(post);
  }
}
