/**
  The `likes` service object: it owns the `likes` collection and answers the
  procedure-call and HTTP entry points. Every store operation re-reads the
  user's record, decides, and writes back by insert, update or delete; the
  pure definitions in `LikeStore` are the specification each one meets.
 */
module LikesService {
  import opened LikeStore

  /** Event names published on the notification bus. */
  const LikeEvent: string := "like"
  const LikeCancelEvent: string := "like_cancel"

  /** HTTP status codes the cancel and add endpoints answer with. */
  const Created: int := 201
  const NotFound: int := 404

  /** One published notification: its name and the `[user_id, event_id]` payload. */
  datatype Notice = Notice(name: string, user: UserId, event: EventId)

  class Likes {
    /** The `likes` collection of the document store. */
    var collection: Store

    /** Both store invariants hold of the collection. */
    ghost predicate Valid()
      reads this
    {
      WellFormed(collection)
    }

    /** A service bound to a collection that may already hold records. */
    constructor (init: Store)
      requires WellFormed(init)
      ensures collection == init && Valid()
    {
      collection := init;
    }

    /**
      `_new_like`: read the user's record; insert `[e]` if there is none,
      append `e` if it is absent, and otherwise leave the record alone.
      Returns whether new information was recorded.
     */
    method AddLike(u: UserId, e: EventId) returns (added: bool)
      modifies this
      ensures collection == NewLike(old(collection), u, e).store
      ensures added == NewLike(old(collection), u, e).changed
      ensures old(Valid()) ==> Valid()
    {
      ghost var before := collection;
      var found := GetLikes(collection, u);
      match found {
        case Some(current) =>
          if e !in current {
            current := current + [e];
            collection := collection[u := current];
            added := true;
          } else {
            added := false;
          }
        case None =>
          collection := collection[u := [e]];
          added := true;
      }
      if WellFormed(before) {
        NewLikePreservesWellFormed(before, u, e);
      }
    }

    /**
      `_cancel_like`: a missing record or a missing event reports false; a
      last event deletes the record; otherwise the event is removed from the
      list and the shorter list is written back. Returns whether anything was
      deleted.
     */
    method RemoveLike(u: UserId, e: EventId) returns (deleted: bool)
      modifies this
      ensures collection == CancelLike(old(collection), u, e).store
      ensures deleted == CancelLike(old(collection), u, e).changed
      ensures old(Valid()) ==> Valid()
    {
      ghost var before := collection;
      var found := GetLikes(collection, u);
      if found.None? {
        // `find_one` gave None, subscripting it raised, and the handler answers False
        return false;
      }
      var current := found.value;
      if e in current {
        if |current| > 1 {
          current := RemoveFirst(current, e);
          collection := collection[u := current];
        } else {
          collection := collection - {u};
        }
        deleted := true;
      } else {
        deleted := false;
      }
      if WellFormed(before) {
        CancelLikePreservesWellFormed(before, u, e);
      }
    }

    /**
      `get_likes_by_id` (and its HTTP twin): the user's list, or None. In a
      valid collection a listing is never empty and never repeats an event.
     */
    function GetLikesById(u: UserId): (r: Option<seq<EventId>>)
      reads this
      ensures r.None? <==> u !in collection
      ensures r.Some? ==> r.value == collection[u]
      ensures Valid() && r.Some? ==> r.value != [] && NoDuplicates(r.value)
    {
      GetLikes(collection, u)
    }

    /**
      `is_event_liked` (and its HTTP twin), with the unknown-user case
      answered false: it agrees with the listing, and with the code wherever
      the code does not raise.
     */
    function IsEventLikedById(u: UserId, e: EventId): (r: bool)
      reads this
      ensures r <==> GetLikesById(u).Some? && e in GetLikesById(u).value
      ensures u in collection ==> IsEventLikedAsWritten(collection, u, e) == Ok(r)
    {
      IsEventLiked(collection, u, e)
    }

    /** `new_like` over procedure call: publishes "like" exactly when the like was new. */
    method NewLikeRpc(u: UserId, e: EventId) returns (notice: Option<Notice>)
      modifies this
      ensures collection == NewLike(old(collection), u, e).store
      ensures notice.Some? <==> NewLike(old(collection), u, e).changed
      ensures notice.Some? ==> notice.value == Notice(LikeEvent, u, e)
      ensures old(Valid()) ==> Valid()
    {
      var added := AddLike(u, e);
      notice := if added then Some(Notice(LikeEvent, u, e)) else None;
    }

    /** `cancel_like` over procedure call: publishes "like_cancel" exactly when a like was removed. */
    method CancelLikeRpc(u: UserId, e: EventId) returns (notice: Option<Notice>)
      modifies this
      ensures collection == CancelLike(old(collection), u, e).store
      ensures notice.Some? <==> CancelLike(old(collection), u, e).changed
      ensures notice.Some? ==> notice.value == Notice(LikeCancelEvent, u, e)
      ensures old(Valid()) ==> Valid()
    {
      var deleted := RemoveLike(u, e);
      notice := if deleted then Some(Notice(LikeCancelEvent, u, e)) else None;
    }

    /** `POST /new_like`: the same dispatch as `new_like`, and always 201. */
    method NewLikeHttp(u: UserId, e: EventId) returns (status: int, notice: Option<Notice>)
      modifies this
      ensures collection == NewLike(old(collection), u, e).store
      ensures notice.Some? <==> NewLike(old(collection), u, e).changed
      ensures notice.Some? ==> notice.value == Notice(LikeEvent, u, e)
      ensures old(Valid()) ==> Valid()
      ensures status == Created
    {
      var added := AddLike(u, e);
      notice := if added then Some(Notice(LikeEvent, u, e)) else None;
      status := Created;
    }

    /** `POST /cancel_like`: 201 with a "like_cancel" notice when removed, 404 otherwise. */
    method CancelLikeHttp(u: UserId, e: EventId) returns (status: int, notice: Option<Notice>)
      modifies this
      ensures collection == CancelLike(old(collection), u, e).store
      ensures notice.Some? <==> CancelLike(old(collection), u, e).changed
      ensures notice.Some? ==> notice.value == Notice(LikeCancelEvent, u, e)
      ensures old(Valid()) ==> Valid()
      ensures status == Created <==> IsLiked(old(collection), u, e)
      ensures status == NotFound <==> !IsLiked(old(collection), u, e)
    {
      var deleted := RemoveLike(u, e);
      if deleted {
        notice := Some(Notice(LikeCancelEvent, u, e));
        return Created, notice;
      }
      return NotFound, None;
    }
  }

  /**
    A cancel sent over HTTP for a user who has no record is answered 404,
    publishes nothing, creates no record and leaves the collection as it was,
    whatever the collection already holds.
   */
  method CancelWithoutRecord(init: Store, u: UserId, e: EventId)
    returns (status: int, notice: Option<Notice>, listing: Option<seq<EventId>>, after: Store)
    requires WellFormed(init) && u !in init
    ensures status == NotFound && notice == None && listing == None && after == init
  {
    var service := new Likes(init);
    status, notice := service.CancelLikeHttp(u, e);
    listing := service.GetLikesById(u);
    after := service.collection;
  }
}
