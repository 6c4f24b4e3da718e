/** LikeController: the request handlers of the Like subsystem. */
module LikeControl {
  import opened Likes
  import opened Stores

  /** What a handler hands back: its reply body, or the store's failure propagating
      out of the handler. */
  datatype Response = Ok(body: string) | StoreFailure

  /** The loop every list endpoint runs: one LikeBuilt per Like, in the same order. */
  method BuildEach(likes: seq<Like>) returns (built: seq<LikeBuilt>)
    ensures |built| == |likes|
    ensures forall i :: 0 <= i < |likes| ==> built[i] == Build(likes[i])
  {
    built := [];
    for i := 0 to |likes|
      invariant |built| == i
      invariant forall k :: 0 <= k < i ==> built[k] == Build(likes[k])
    {
      built := built + [Build(likes[i])];
    }
  }

  class LikeController {
    /** The LikeService. */
    const ls: LikeStore
    /** The DAOs looked up from the application context. */
    const pd: EntityStore<Post>
    const ud: EntityStore<User>
    const cd: EntityStore<Comment>

    /** The Like table keeps its primary key, and every Like in it has a creation time. */
    ghost predicate Valid()
      reads this, ls
    {
      ls.Valid() && Stamped(ls.likes)
    }

    constructor (ls: LikeStore, pd: EntityStore<Post>, ud: EntityStore<User>, cd: EntityStore<Comment>)
      requires ls.Valid() && Stamped(ls.likes)
      ensures Valid()
      ensures this.ls == ls && this.pd == pd && this.ud == ud && this.cd == cd
    {
      this.ls := ls;
      this.pd := pd;
      this.ud := ud;
      this.cd := cd;
    }

    /** getAll: every stored Like, projected, in store order; each view has its date. */
    method GetAll() returns (built: seq<LikeBuilt>)
      requires Valid()
      ensures |built| == |ls.likes|
      ensures forall i :: 0 <= i < |built| ==> built[i] == Build(ls.likes[i])
      ensures forall i :: 0 <= i < |built| ==> built[i].dateCreated.Some?
    {
      var likes := ls.GetAllLikes();
      built := BuildEach(likes);
    }

    /** getById: the view of the Like stored under that id, none when there is none. */
    method GetById(id: int) returns (built: Option<LikeBuilt>)
      requires Valid()
      ensures built.Some? <==> HasId(ls.likes, id)
      ensures forall x :: x in ls.likes && x.id == id ==> built == Some(Build(x))
    {
      var like := ls.GetLikeById(id);
      built := if like.Some? then Some(Build(like.value)) else None;
    }

    /** getAllLikesByUser: the views of the Likes whose author has that id, in store order. */
    method GetAllLikesByUser(id: int) returns (built: seq<LikeBuilt>)
      requires Valid()
      ensures |built| == |Matching(ls.likes, ByAuthor, id)|
      ensures forall i :: 0 <= i < |built| ==> built[i] == Build(Matching(ls.likes, ByAuthor, id)[i])
      ensures forall i :: 0 <= i < |built| ==> built[i].authorId == Some(id)
    {
      var likes := ls.GetAllUserLikes(id);
      built := BuildEach(likes);
    }

    /** getAllLikesByPost: the views of the Likes on that post, in store order. */
    method GetAllLikesByPost(id: int) returns (built: seq<LikeBuilt>)
      requires Valid()
      ensures |built| == |Matching(ls.likes, ByPost, id)|
      ensures forall i :: 0 <= i < |built| ==> built[i] == Build(Matching(ls.likes, ByPost, id)[i])
      ensures forall i :: 0 <= i < |built| ==> built[i].postId == Some(id)
    {
      var likes := ls.GetAllPostLikes(id);
      built := BuildEach(likes);
    }

    /** getAllLikesByComment: the views of the Likes on that comment, in store order. */
    method GetAllLikesByComment(id: int) returns (built: seq<LikeBuilt>)
      requires Valid()
      ensures |built| == |Matching(ls.likes, ByComment, id)|
      ensures forall i :: 0 <= i < |built| ==> built[i] == Build(Matching(ls.likes, ByComment, id)[i])
      ensures forall i :: 0 <= i < |built| ==> built[i].commentId == Some(id)
    {
      var likes := ls.GetAllCommentLikes(id);
      built := BuildEach(likes);
    }

    /** insertLike: builds a Like from the request, resolving post, comment and author
        each on its own (a failed lookup leaves that one absent), stamps it with the
        clock reading `now`, and hands it to the store. Only the Like table changes. */
    method InsertLike(like: LikeBuilt, now: Timestamp) returns (r: Response)
      requires Valid()
      modifies ls
      ensures Valid()
      ensures unchanged(pd, cd, ud)
      ensures r == if HasId(old(ls.likes), like.id) then StoreFailure else Ok("inserted")
      ensures ls.likes == if r.Ok? then old(ls.likes) + [NewLike(like, pd.rows, cd.rows, ud.rows, now)]
                          else old(ls.likes)
    {
      var l := Like(like.id, None, None, None, None);
      var post := pd.FindById(like.postId);
      l := l.(post := if post.Found? then Some(post.row) else None);
      var comment := cd.FindById(like.commentId);
      l := l.(comment := if comment.Found? then Some(comment.row) else None);
      var author := ud.FindById(like.authorId);
      l := l.(author := if author.Found? then Some(author.row) else None);
      l := l.(dateCreated := Some(now));
      var ok := ls.InsertLike(l);
      if !ok {
        return StoreFailure;
      }
      r := Ok("inserted");
    }

    /** deleteLike: looks the Like up by the request's id and deletes what it found;
        every other Like stays, in order, and the reply is always "deleted". */
    method DeleteLike(like: LikeBuilt) returns (r: string)
      requires Valid()
      modifies ls
      ensures Valid()
      ensures r == "deleted"
      ensures ls.likes == Without(old(ls.likes), like.id)
    {
      var l := ls.GetLikeById(like.id);
      if l.None? {
        WithoutAbsent(ls.likes, like.id);
      }
      WithoutKeepsStamps(ls.likes, like.id);
      ls.DeleteLike(l);
      r := "deleted";
    }
  }

  /** A caller's view of the handlers: the outcomes follow from their contracts alone. */
  method Client(posts: map<int, Post>, users: map<int, User>, now: Timestamp)
    requires 3 in posts && 7 in users && 999 !in posts
    requires KeyedPosts(posts) && KeyedUsers(users)
  {
    var ls := new LikeStore();
    var pd := new EntityStore(posts);
    var ud := new EntityStore(users);
    var cd := new EntityStore<Comment>(map[]);
    var c := new LikeController(ls, pd, ud, cd);

    var r := c.InsertLike(LikeBuilt(42, Some(7), Some(3), None, Some(now - 1)), now);
    assert r == Ok("inserted");
    assert ls.likes[0] == Like(42, Some(users[7]), Some(posts[3]), None, Some(now));

    r := c.InsertLike(LikeBuilt(43, None, Some(999), Some(5), None), now);
    assert r == Ok("inserted");
    assert ls.likes[1] == Like(43, None, None, None, Some(now));

    r := c.InsertLike(LikeBuilt(42, None, None, None, None), now);
    assert ls.likes[0] in ls.likes;
    assert r == StoreFailure;

    var view := c.GetById(42);
    assert ls.likes[0] in ls.likes;
    InsertedView(LikeBuilt(42, Some(7), Some(3), None, Some(now - 1)), posts, map[], users, now);
    assert view == Some(LikeBuilt(42, Some(7), Some(3), None, Some(now)));

    ghost var before := ls.likes;
    var d := c.DeleteLike(LikeBuilt(42, None, None, None, None));
    WithoutRemovesOne(before, 0);
    assert ls.likes == [before[1]];

    ghost var afterFirst := ls.likes;
    d := c.DeleteLike(LikeBuilt(42, None, None, None, None));
    DeleteIdempotent(before, 42);
    assert d == "deleted" && ls.likes == afterFirst;
  }
}
