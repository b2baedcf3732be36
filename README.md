# Likes store — a Dafny model

This project models the like-set store of the `likes` service (`likes.py`,
class `Likes`). The service keeps, in the document collection `likes`, one
record per user: the user id as key and `likes_list`, the ordered list of the
ids of the events that user liked. Four store operations work on it:

- `_new_like` inserts `[event_id]` for a user's first like. For an existing
  user it appends an event that is not yet in the list, and it leaves a list
  that already holds the event alone. It returns whether anything was added.
- `_cancel_like` answers false for a user without a record or an event not in
  the list. If the list holds other events too, it removes the event and writes
  the shorter list back. If the event was the last one, it deletes the record.
- `_get_likes` returns the list, or `None`.
- `is_event_liked` tests membership in that list.

The procedure-call and HTTP entry points add one decision each. They publish
`"like"` or `"like_cancel"` only when the store operation reports a change.
`POST /new_like` always answers 201. `POST /cancel_like` answers 201 or 404.

Files:

- `like_store.dfy`, module `LikeStore`: the collection as a
  `map<UserId, seq<EventId>>`. It gives each store operation as a function
  returning an `Outcome`, which holds the new collection and the boolean the
  code returns. It defines Python's `list.remove` as `RemoveFirst` and holds
  the lemmas: the two invariants, idempotence, the like/cancel round trip and
  the usage scenario.
- `likes_service.dfy`, module `LikesService`: class `Likes`, whose field
  `collection` is the shared collection. `AddLike` and `RemoveLike` are the
  read-decide-write methods, each proved equal to its `LikeStore` function.
  The API methods return the published notice and the HTTP status.

The two invariants are packed into `WellFormed`. No stored list is empty. No
list holds an event twice. Both operations keep them. The code does not
assume them, so the operations are defined on every collection.

## Model

| member | source | states |
|---|---|---|
| `LikeStore.GetLikes` | likes.py:103-112 | a listing is absent exactly when the user has no record, and is otherwise the stored list |
| `LikeStore.IsEventLikedAsWritten` | likes.py:156-159 | the membership test fails (Python `TypeError`) exactly for a user with no record; otherwise it answers whether the event is in the user's list |
| `LikeStore.IsEventLiked` | likes.py:150-159 | the corrected membership test equals the code's answer wherever the code returns, is false where the code raises, and holds iff the user's record contains the event |
| `LikeStore.RemoveFirst` | likes.py:87 | `list.remove` yields a list one shorter whose multiset is the old multiset minus one copy of the event |
| `LikeStore.NewLike` | likes.py:32-64 | reports a change iff the event was not yet liked; afterwards the event is liked; a first like stores exactly `[e]`; an existing list gets `e` appended with earlier order kept; no change leaves the collection identical; the user set grows by at most this user; every other user's record is unchanged |
| `LikeStore.CancelLike` | likes.py:66-101 | reports a change iff the event was liked; no change leaves the collection identical (an unknown user gets no record); removing the only event deletes the record; otherwise the stored list is the old one with that event removed; every other user's record is unchanged |
| `LikeStore.RemoveFirstAt` | likes.py:87 | removing the first occurrence at index `i` leaves exactly the elements before and after `i`, in their original order |
| `LikeStore.RemoveFirstNoDuplicates` | likes.py:82-91 | removing from a duplicate-free list leaves a duplicate-free list that no longer contains the event |
| `LikeStore.RemoveFirstAppended` | likes.py:49-51 | removing an event that was just appended to a list not containing it gives back the original list |
| `LikeStore.NewLikePreservesWellFormed` | likes.py:46-64 | adding a like keeps every stored list non-empty and duplicate-free |
| `LikeStore.CancelLikePreservesWellFormed` | likes.py:82-99 | cancelling a like keeps every stored list non-empty and duplicate-free, because the last event deletes the record |
| `LikeStore.NewLikeIdempotent` | likes.py:49-58 | a second like of the same pair reports false and changes nothing |
| `LikeStore.CancelLikeUnlikes` | likes.py:82-100 | in a well-formed collection the event is no longer liked after a cancel |
| `LikeStore.CancelUndoesNewLike` | likes.py:46-100 | in a well-formed collection, liking a not-yet-liked event and then cancelling it reports true twice and restores the collection exactly, for a first like as for an appended one |
| `LikeStore.CancelLastLikeDeletesRecord` | likes.py:92-112 | cancelling the only liked event reports true and leaves no record, so a later listing is `None` |
| `LikeStore.Scenario` | likes.py:32-112 | like e1 (true), like e1 again (false), like e2 (true, listing `[e1, e2]`), cancel e1 (true, listing `[e2]`), cancel e2 (true, listing absent) |
| `LikeStore.IsEventLikedRaisesForUnknownUser` | likes.py:156-157 | for a user with no record, the code's membership test raises, while the corrected one answers false |
| `LikesService.Likes.constructor` | likes.py:14-21 | a service is bound to an existing collection, which may already hold records and satisfies both invariants |
| `LikesService.Likes.AddLike` | likes.py:32-64 | the collection becomes and the result equals what `NewLike` gives for the old collection; a well-formed collection stays well-formed |
| `LikesService.Likes.RemoveLike` | likes.py:66-101 | the collection becomes and the result equals what `CancelLike` gives for the old collection; a well-formed collection stays well-formed |
| `LikesService.Likes.GetLikesById` | likes.py:142-148 | the listing is absent exactly when the user has no record and is otherwise the stored list; in a well-formed collection a listing is never empty and never repeats an event |
| `LikesService.Likes.IsEventLikedById` | likes.py:150-159 | the answer is true iff the listing exists and contains the event, and equals the code's answer whenever the user has a record |
| `LikesService.Likes.NewLikeRpc` | likes.py:116-126 | stores as `_new_like` does and publishes `"like"` with the pair exactly when `_new_like` reports true; a well-formed collection stays well-formed |
| `LikesService.Likes.CancelLikeRpc` | likes.py:128-140 | stores as `_cancel_like` does and publishes `"like_cancel"` with the pair exactly when `_cancel_like` reports true; a well-formed collection stays well-formed |
| `LikesService.Likes.NewLikeHttp` | likes.py:161-174 | stores and publishes as `new_like` does, and always answers 201; a well-formed collection stays well-formed |
| `LikesService.Likes.CancelLikeHttp` | likes.py:176-193 | stores and publishes as `cancel_like` does; answers 201 exactly when the pair was liked and 404 exactly when it was not; a well-formed collection stays well-formed |
| `LikesService.CancelWithoutRecord` | likes.py:176-193 | on any well-formed collection, a cancel over HTTP for a user with no record answers 404, publishes nothing, creates no record and leaves the collection unchanged |

## Findings

| source | as written | input that shows it | evidently intended | confidence | as-written member | corrected member |
|---|---|---|---|---|---|---|
| likes.py:156-157 (and 210-211) | `event_id in likes` with `likes` taken from `_get_likes`, which is `None` for a user with no record, so the membership test raises `TypeError` | any user id with no record, e.g. `is_event_liked("u", "e")` on an empty collection | answer false: the method is documented to return a bool, and a user with no likes has not liked the event | not executed; high | `LikeStore.IsEventLikedAsWritten`, exhibited by `LikeStore.IsEventLikedRaisesForUnknownUser` | `LikeStore.IsEventLiked`, used by `LikesService.Likes.IsEventLikedById` |

## Left out

- The MongoDB driver calls (`find_one`, `insert_one`, `update_one`, `delete_one`) are modelled as map lookup, insert, update and key removal. Storage outages and timeouts are not modelled.
- The broad `except Exception` in `_cancel_like` (likes.py:79): only its effect for a missing record (answer false) is modelled. A record without a `likes_list` field, or a failing store, cannot occur in the model. The code answers false in those cases too, where a design that separates "not found" from "storage unavailable" would propagate the storage error. The model follows the code.
- The nameko plumbing (`@rpc`, `@http`, `RpcProxy`, `EventDispatcher`): a dispatch is modelled as the `Notice` an entry point returns, and no transport is modelled.
- Malformed `like_data` on the procedure-call entry points: `new_like` and `cancel_like` raise when it does not unpack into a pair (likes.py:38, 72). The model takes the user id and event id as two parameters, so this failure is not modelled.
- The werkzeug `Request`/`Response` objects and the JSON parsing and serialisation of bodies and results (likes.py:169-170, 184-185, 202, 212-213). The HTTP methods take the parsed pair and return the status code. Malformed bodies are not modelled.
- `get_likes_by_id_http` and `is_event_liked_http` (likes.py:195-213) compute the same value as their procedure-call twins, which `GetLikesById` and `IsEventLikedById` model. They differ only in the JSON serialisation.
- The audit calls to the `logger` service (likes.py:122-123, 134-135) and the `print` diagnostics (likes.py:80, 140) have no effect on state and are left out.
- Concurrency between requests: each operation is modelled as one atomic read-modify-write on one user's record.
