/** The collaborators behind the controller: the read-only entity DAOs (PostDao,
    CommentDao, UserDao) and the Like store (LikeService and the Like table). */
module Stores {
  import opened Likes

  /** What a DAO's findById does: return the row, or throw. */
  datatype Lookup<+E> = Found(row: E) | Thrown

  /** A table read by primary key. Nothing in the Like subsystem writes to it. */
  class EntityStore<E> {
    var rows: map<int, E>

    constructor (initial: map<int, E>)
      ensures rows == initial
    {
      rows := initial;
    }

    /** findById: throws for a null id and for an id no row has; caught, it is `Resolve`. */
    method FindById(id: Option<int>) returns (r: Lookup<E>)
      ensures (if r.Found? then Some(r.row) else None) == Resolve(rows, id)
    {
      if id.Some? && id.value in rows {
        r := Found(rows[id.value]);
      } else {
        r := Thrown;
      }
    }
  }

  /** The Like table in store order, keyed by the Like's id. */
  class LikeStore {
    var likes: seq<Like>

    ghost predicate Valid()
      reads this
    {
      UniqueIds(likes)
    }

    constructor ()
      ensures Valid() && likes == []
    {
      likes := [];
    }

    method GetAllLikes() returns (r: seq<Like>)
      ensures r == likes
    {
      r := likes;
    }

    /** The Like with that id, or none. */
    method GetLikeById(id: int) returns (r: Option<Like>)
      requires Valid()
      ensures r.Some? <==> HasId(likes, id)
      ensures r.Some? ==> r.value in likes && r.value.id == id
      ensures forall x :: x in likes && x.id == id ==> r == Some(x)
    {
      r := FindLike(likes, id);
      forall x | x in likes && x.id == id ensures r == Some(x) {
        FindLikeUnique(likes, x);
      }
    }

    method GetAllUserLikes(id: int) returns (r: seq<Like>)
      ensures r == Matching(likes, ByAuthor, id)
    {
      r := Matching(likes, ByAuthor, id);
    }

    method GetAllPostLikes(id: int) returns (r: seq<Like>)
      ensures r == Matching(likes, ByPost, id)
    {
      r := Matching(likes, ByPost, id);
    }

    method GetAllCommentLikes(id: int) returns (r: seq<Like>)
      ensures r == Matching(likes, ByComment, id)
    {
      r := Matching(likes, ByComment, id);
    }

    /** Appends the Like, unless its primary key is already taken: then the store
        refuses it and nothing changes. */
    method InsertLike(l: Like) returns (ok: bool)
      requires Valid()
      modifies this
      ensures Valid()
      ensures ok <==> !HasId(old(likes), l.id)
      ensures likes == if ok then old(likes) + [l] else old(likes)
    {
      ok := FindLike(likes, l.id).None?;
      if ok {
        assert forall i :: 0 <= i < |likes| ==> likes[i] in likes;
        likes := likes + [l];
      }
    }

    /** Deletes the row with the given Like's id; no Like means nothing to delete. */
    method DeleteLike(l: Option<Like>)
      requires Valid()
      modifies this
      ensures Valid()
      ensures likes == if l.Some? then Without(old(likes), l.value.id) else old(likes)
    {
      if l.Some? {
        WithoutKeepsUnique(likes, l.value.id);
        likes := Without(likes, l.value.id);
      }
    }
  }
}
