/** Values of the Like subsystem: the entities a Like refers to, the Like record itself,
    its flattened view LikeBuilt, and the pure functions that say what the controller
    and the Like store compute. */
module Likes {

  datatype Option<+T> = None | Some(value: T)

  /** A reading of the wall clock (LocalDateTime), as an abstract instant. */
  type Timestamp = int

  /** The entities a Like points at. Besides the primary key, their columns are
      opaque to this subsystem, which only ever reads them. */
  datatype User = User(id: int, columns: seq<string>)
  datatype Post = Post(id: int, columns: seq<string>)
  datatype Comment = Comment(id: int, columns: seq<string>)

  /** A persisted Like: each association is an optional reference (null in the
      source), and nothing forces post and comment to be exclusive. */
  datatype Like = Like(
    id: int,
    author: Option<User>,
    post: Option<Post>,
    comment: Option<Comment>,
    dateCreated: Option<Timestamp>)

  /** LikeBuilt: the id-only view of a Like sent to callers; the insert and delete
      requests arrive in the same shape. */
  datatype LikeBuilt = LikeBuilt(
    id: int,
    authorId: Option<int>,
    postId: Option<int>,
    commentId: Option<int>,
    dateCreated: Option<Timestamp>)

  // ---------------------------------------------------------------------------
  // Projection

  function UserId(u: Option<User>): Option<int> {
    if u.Some? then Some(u.value.id) else None
  }

  function PostId(p: Option<Post>): Option<int> {
    if p.Some? then Some(p.value.id) else None
  }

  function CommentId(c: Option<Comment>): Option<int> {
    if c.Some? then Some(c.value.id) else None
  }

  /** `new LikeBuilt(l)`: every association flattened to its id or to absence. */
  function Build(l: Like): (v: LikeBuilt)
    ensures v.id == l.id && v.dateCreated == l.dateCreated
    ensures v.authorId.Some? <==> l.author.Some?
    ensures v.postId.Some? <==> l.post.Some?
    ensures v.commentId.Some? <==> l.comment.Some?
    ensures l.author.Some? ==> v.authorId.value == l.author.value.id
    ensures l.post.Some? ==> v.postId.value == l.post.value.id
    ensures l.comment.Some? ==> v.commentId.value == l.comment.value.id
  {
    LikeBuilt(l.id, UserId(l.author), PostId(l.post), CommentId(l.comment), l.dateCreated)
  }

  // ---------------------------------------------------------------------------
  // Association resolution

  /** A DAO lookup wrapped in try/catch: the row stored under the id, or absence when
      the id is null or no row has it (the DAO throws and the handler swallows it). */
  function Resolve<E>(rows: map<int, E>, id: Option<int>): (r: Option<E>)
    ensures r.Some? <==> id.Some? && id.value in rows
    ensures r.Some? ==> r.value == rows[id.value]
  {
    if id.Some? && id.value in rows then Some(rows[id.value]) else None
  }

  /** The Like that insertLike builds from a request, given the rows of the post,
      comment and user tables and the clock reading taken during the call. */
  function NewLike(
    like: LikeBuilt,
    posts: map<int, Post>,
    comments: map<int, Comment>,
    users: map<int, User>,
    now: Timestamp): (l: Like)
    ensures l.id == like.id
    ensures l.post.Some? <==> like.postId.Some? && like.postId.value in posts
    ensures l.post.Some? ==> l.post.value == posts[like.postId.value]
    ensures l.comment.Some? <==> like.commentId.Some? && like.commentId.value in comments
    ensures l.comment.Some? ==> l.comment.value == comments[like.commentId.value]
    ensures l.author.Some? <==> like.authorId.Some? && like.authorId.value in users
    ensures l.author.Some? ==> l.author.value == users[like.authorId.value]
    ensures l.dateCreated == Some(now)
  {
    Like(like.id, Resolve(users, like.authorId), Resolve(posts, like.postId),
         Resolve(comments, like.commentId), Some(now))
  }

  /** A table whose every row sits under its own primary key. */
  ghost predicate KeyedUsers(rows: map<int, User>) {
    forall k :: k in rows ==> rows[k].id == k
  }

  ghost predicate KeyedPosts(rows: map<int, Post>) {
    forall k :: k in rows ==> rows[k].id == k
  }

  ghost predicate KeyedComments(rows: map<int, Comment>) {
    forall k :: k in rows ==> rows[k].id == k
  }

  /** Every association of `l` is either absent or the row the table holds under its id. */
  ghost predicate LiveIn(
    l: Like, posts: map<int, Post>, comments: map<int, Comment>, users: map<int, User>)
  {
    && (l.author.Some? ==> l.author.value.id in users && users[l.author.value.id] == l.author.value)
    && (l.post.Some? ==> l.post.value.id in posts && posts[l.post.value.id] == l.post.value)
    && (l.comment.Some? ==> l.comment.value.id in comments
                            && comments[l.comment.value.id] == l.comment.value)
  }

  /** The view of a freshly inserted Like keeps each requested id exactly when the
      table holds it, echoes the requested id, and carries the clock reading rather
      than any date the caller sent. */
  lemma InsertedView(
    like: LikeBuilt,
    posts: map<int, Post>,
    comments: map<int, Comment>,
    users: map<int, User>,
    now: Timestamp)
    requires KeyedPosts(posts) && KeyedComments(comments) && KeyedUsers(users)
    ensures var v := Build(NewLike(like, posts, comments, users, now));
      && v.id == like.id
      && v.postId == (if like.postId.Some? && like.postId.value in posts then like.postId else None)
      && v.commentId ==
           (if like.commentId.Some? && like.commentId.value in comments then like.commentId else None)
      && v.authorId == (if like.authorId.Some? && like.authorId.value in users then like.authorId else None)
      && v.dateCreated == Some(now)
  {
    var l := NewLike(like, posts, comments, users, now);
    if l.post.Some? {
      assert posts[like.postId.value].id == like.postId.value;
    }
    if l.comment.Some? {
      assert comments[like.commentId.value].id == like.commentId.value;
    }
    if l.author.Some? {
      assert users[like.authorId.value].id == like.authorId.value;
    }
  }

  /** The resolved references are live: each is absent or the row stored under its id. */
  lemma NewLikeIsLive(
    like: LikeBuilt,
    posts: map<int, Post>,
    comments: map<int, Comment>,
    users: map<int, User>,
    now: Timestamp)
    requires KeyedPosts(posts) && KeyedComments(comments) && KeyedUsers(users)
    ensures LiveIn(NewLike(like, posts, comments, users, now), posts, comments, users)
  {
    var l := NewLike(like, posts, comments, users, now);
    if l.post.Some? {
      assert posts[like.postId.value].id == like.postId.value;
    }
    if l.comment.Some? {
      assert comments[like.commentId.value].id == like.commentId.value;
    }
    if l.author.Some? {
      assert users[like.authorId.value].id == like.authorId.value;
    }
  }

  /** The view loses nothing: resolving the view of a live Like against the same
      tables rebuilds that Like, apart from the creation time the insert stamps. */
  lemma BuildResolveRoundTrip(
    l: Like,
    posts: map<int, Post>,
    comments: map<int, Comment>,
    users: map<int, User>,
    now: Timestamp)
    requires LiveIn(l, posts, comments, users)
    ensures NewLike(Build(l), posts, comments, users, now) == l.(dateCreated := Some(now))
  {
  }

  // ---------------------------------------------------------------------------
  // Contents of the Like store

  ghost predicate HasId(s: seq<Like>, id: int) {
    exists x :: x in s && x.id == id
  }

  /** The primary key of the Like table: no two rows share an id. */
  ghost predicate UniqueIds(s: seq<Like>) {
    forall i, j :: 0 <= i < j < |s| ==> s[i].id != s[j].id
  }

  /** Every persisted Like carries its creation time. */
  ghost predicate Stamped(s: seq<Like>) {
    forall i :: 0 <= i < |s| ==> s[i].dateCreated.Some?
  }

  /** Point lookup by primary key. */
  function FindLike(s: seq<Like>, id: int): (r: Option<Like>)
    ensures r.Some? <==> HasId(s, id)
    ensures r.Some? ==> r.value in s && r.value.id == id
  {
    if s == [] then None
    else if s[0].id == id then Some(s[0])
    else
      var r := FindLike(s[1..], id);
      assert forall x :: x in s && x.id == id ==> x in s[1..];
      r
  }

  /** Under the primary key, the lookup yields the one row that has the id. */
  lemma FindLikeUnique(s: seq<Like>, x: Like)
    requires UniqueIds(s)
    requires x in s
    ensures FindLike(s, x.id) == Some(x)
  {
  }

  /** Which association a list query filters on. */
  datatype Ref = ByAuthor | ByPost | ByComment

  function RefId(l: Like, f: Ref): Option<int> {
    match f
    case ByAuthor => UserId(l.author)
    case ByPost => PostId(l.post)
    case ByComment => CommentId(l.comment)
  }

  /** The Likes whose chosen association has id `k`, in store order. */
  function Matching(s: seq<Like>, f: Ref, k: int): (r: seq<Like>)
    ensures |r| <= |s|
    ensures forall i :: 0 <= i < |r| ==> RefId(r[i], f) == Some(k)
  {
    if s == [] then []
    else if RefId(s[0], f) == Some(k) then [s[0]] + Matching(s[1..], f, k)
    else Matching(s[1..], f, k)
  }

  /** The filter is exact: a Like is listed iff it is stored and its association has the id. */
  lemma {:induction false} MatchingExactly(s: seq<Like>, f: Ref, k: int, x: Like)
    ensures x in Matching(s, f, k) <==> x in s && RefId(x, f) == Some(k)
  {
    if s != [] {
      MatchingExactly(s[1..], f, k, x);
      assert s == [s[0]] + s[1..];
    }
  }

  /** Listing keeps store order: a Like appended to the store joins the end of every
      list it matches and no other. */
  lemma {:induction false} MatchingAppend(s: seq<Like>, l: Like, f: Ref, k: int)
    ensures Matching(s + [l], f, k) ==
            Matching(s, f, k) + (if RefId(l, f) == Some(k) then [l] else [])
  {
    if s == [] {
      assert [] + [l] == [l];
    } else {
      assert (s + [l])[1..] == s[1..] + [l];
      MatchingAppend(s[1..], l, f, k);
    }
  }

  /** The store after removing the row with primary key `id`. */
  function Without(s: seq<Like>, id: int): (r: seq<Like>)
    ensures forall x :: x in r <==> x in s && x.id != id
  {
    if s == [] then []
    else if s[0].id == id then Without(s[1..], id)
    else
      assert s == [s[0]] + s[1..];
      [s[0]] + Without(s[1..], id)
  }

  /** Removing an id no row has changes nothing. */
  lemma {:induction false} WithoutAbsent(s: seq<Like>, id: int)
    requires !HasId(s, id)
    ensures Without(s, id) == s
  {
    if s != [] {
      assert s[0] in s;
      assert !HasId(s[1..], id) by {
        forall x | x in s[1..] ensures x.id != id { assert x in s; }
      }
      WithoutAbsent(s[1..], id);
      assert s == [s[0]] + s[1..];
    }
  }

  /** The rows after the first keep the primary key. */
  lemma TailUnique(s: seq<Like>)
    requires UniqueIds(s) && s != []
    ensures UniqueIds(s[1..])
  {
  }

  /** Under the primary key, no row after the first has the first row's id. */
  lemma TailLacksHeadId(s: seq<Like>)
    requires UniqueIds(s) && s != []
    ensures !HasId(s[1..], s[0].id)
  {
  }

  /** Under the primary key, removing the id of row i removes that row and keeps
      every other row, in order. */
  lemma {:induction false} WithoutRemovesOne(s: seq<Like>, i: nat)
    requires UniqueIds(s)
    requires i < |s|
    ensures Without(s, s[i].id) == s[..i] + s[i + 1..]
  {
    if i == 0 {
      TailLacksHeadId(s);
      WithoutAbsent(s[1..], s[0].id);
    } else {
      var t := s[1..];
      assert s[0].id != s[i].id;
      assert t[i - 1] == s[i];
      TailUnique(s);
      WithoutRemovesOne(t, i - 1);
      assert s[..i] + s[i + 1..] == [s[0]] + (t[..i - 1] + t[i..]);
    }
  }

  /** Removal keeps the primary key. */
  lemma {:induction false} WithoutKeepsUnique(s: seq<Like>, id: int)
    requires UniqueIds(s)
    ensures UniqueIds(Without(s, id))
  {
    if s != [] {
      TailUnique(s);
      WithoutKeepsUnique(s[1..], id);
      if s[0].id != id {
        var r := Without(s[1..], id);
        TailLacksHeadId(s);
        forall j | 0 <= j < |r| ensures r[j].id != s[0].id {
          assert r[j] in r;
        }
      }
    }
  }

  /** Removal keeps every remaining row's creation time. */
  lemma WithoutKeepsStamps(s: seq<Like>, id: int)
    requires Stamped(s)
    ensures Stamped(Without(s, id))
  {
  }

  /** Deleting the same id twice: the second removal is a no-op. */
  lemma {:induction false} DeleteIdempotent(s: seq<Like>, id: int)
    ensures Without(Without(s, id), id) == Without(s, id)
  {
    var r := Without(s, id);
    assert !HasId(r, id);
    WithoutAbsent(r, id);
  }
}
