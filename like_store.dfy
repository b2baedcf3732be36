/**
  The like-set store of the `likes` service, as values.

  The document collection `likes` holds one record per user, keyed by the
  user id, whose `likes_list` is the ordered list of the events that user
  liked. Here that collection is a map from user id to that list, and every
  operation is a read-decide-write on one entry of it, returned as an
  `Outcome`: the new collection and whether anything was recorded or removed.
 */
module LikeStore {

  type UserId = string
  type EventId = string

  /** The `likes` collection: user id |-> likes_list. */
  type Store = map<UserId, seq<EventId>>

  datatype Option<T> = None | Some(value: T)

  datatype Result<T, E> = Ok(value: T) | Err(error: E)

  /** Raised by Python when `in` is applied to `None`. */
  datatype Fault = TypeError

  /** What one store operation leaves behind and what it reports. */
  datatype Outcome = Outcome(store: Store, changed: bool)

  /** No event occurs twice in one likes_list. */
  predicate NoDuplicates(s: seq<EventId>)
  {
    forall i, j :: 0 <= i < j < |s| ==> s[i] != s[j]
  }

  /**
    The two invariants the service keeps: a record exists only while its list
    is non-empty, and no list holds an event twice.
   */
  predicate WellFormed(st: Store)
  {
    forall u :: u in st ==> st[u] != [] && NoDuplicates(st[u])
  }

  /** `_get_likes`: the user's list, or `None` when the user has no record. */
  function GetLikes(st: Store, u: UserId): (r: Option<seq<EventId>>)
    ensures r.None? <==> u !in st
    ensures r.Some? ==> u in st && r.value == st[u]
  {
    if u in st then Some(st[u]) else None
  }

  /**
    Membership as the service should answer it: a user without a record has
    liked nothing.
   */
  predicate IsLiked(st: Store, u: UserId, e: EventId)
  {
    u in st && e in st[u]
  }

  /**
    `is_event_liked` as written: `event_id in likes` where `likes` is what
    `_get_likes` returned, so a user without a record makes it raise.
   */
  function IsEventLikedAsWritten(st: Store, u: UserId, e: EventId): (r: Result<bool, Fault>)
    ensures r.Err? <==> u !in st
    ensures r.Ok? ==> (r.value <==> IsLiked(st, u, e))
  {
    match GetLikes(st, u)
    case None => Err(TypeError)
    case Some(likes) => Ok(e in likes)
  }

  /**
    `is_event_liked` corrected: absent records read as the empty list. It
    agrees with the code wherever the code returns, and answers false where
    the code raises.
   */
  function IsEventLiked(st: Store, u: UserId, e: EventId): (r: bool)
    ensures IsEventLikedAsWritten(st, u, e).Ok? ==> r == IsEventLikedAsWritten(st, u, e).value
    ensures IsEventLikedAsWritten(st, u, e).Err? ==> !r
    ensures r <==> IsLiked(st, u, e)
  {
    match GetLikes(st, u)
    case None => false
    case Some(likes) => e in likes
  }

  /** Python's `list.remove`: drop the first occurrence of `x`. */
  function RemoveFirst(s: seq<EventId>, x: EventId): (r: seq<EventId>)
    requires x in s
    ensures |r| == |s| - 1
    ensures multiset(r) == multiset(s) - multiset{x}
  {
    assert s == [s[0]] + s[1..];
    if s[0] == x then s[1..] else [s[0]] + RemoveFirst(s[1..], x)
  }

  /**
    `_new_like`: a first like creates the record `[e]`; a new event is
    appended to an existing list; an event already there changes nothing.
    `changed` is the method's return value, "new info is added".
   */
  function NewLike(st: Store, u: UserId, e: EventId): (r: Outcome)
    ensures r.changed <==> !IsLiked(st, u, e)
    ensures !r.changed ==> r.store == st
    ensures IsLiked(r.store, u, e)
    ensures r.store.Keys == st.Keys + {u}
    ensures u !in st ==> r.store[u] == [e]
    ensures u in st && r.changed ==> r.store[u] == st[u] + [e]
    ensures forall v :: v in st && v != u ==> r.store[v] == st[v]
  {
    match GetLikes(st, u)
    case None => Outcome(st[u := [e]], true)
    case Some(current) =>
      if e !in current then Outcome(st[u := current + [e]], true)
      else Outcome(st, false)
  }

  /**
    `_cancel_like`: an unknown user or an event not in the list leaves the
    store alone and reports false; removing the only event deletes the whole
    record; otherwise the first occurrence is removed from the list.
   */
  function CancelLike(st: Store, u: UserId, e: EventId): (r: Outcome)
    ensures r.changed <==> IsLiked(st, u, e)
    ensures !r.changed ==> r.store == st
    ensures r.store.Keys <= st.Keys
    ensures IsLiked(st, u, e) && |st[u]| == 1 ==> st[u] == [e] && r.store == st - {u}
    ensures IsLiked(st, u, e) && |st[u]| > 1 ==> u in r.store && r.store[u] == RemoveFirst(st[u], e)
    ensures forall v :: v in st && v != u ==> v in r.store && r.store[v] == st[v]
  {
    match GetLikes(st, u)
    case None => Outcome(st, false)
    case Some(current) =>
      if e in current then
        if |current| > 1 then Outcome(st[u := RemoveFirst(current, e)], true)
        else Outcome(st - {u}, true)
      else Outcome(st, false)
  }

  // ---------------------------------------------------------------------
  // list.remove

  /** Removing the first occurrence keeps the elements around it in order. */
  lemma {:induction false} RemoveFirstAt(s: seq<EventId>, x: EventId, i: nat)
    requires i < |s| && s[i] == x && x !in s[..i]
    ensures RemoveFirst(s, x) == s[..i] + s[i + 1..]
  {
    if i > 0 {
      assert s[0] in s[..i];
      assert s[1..][..i - 1] == s[1..i];
      RemoveFirstAt(s[1..], x, i - 1);
      assert s[1..][i..] == s[i + 1..];
      assert [s[0]] + s[1..i] == s[..i];
    }
  }

  /** Removing from a duplicate-free list removes the event entirely. */
  lemma {:induction false} RemoveFirstNoDuplicates(s: seq<EventId>, x: EventId)
    requires x in s && NoDuplicates(s)
    ensures NoDuplicates(RemoveFirst(s, x))
    ensures x !in RemoveFirst(s, x)
  {
    var t := s[1..];
    assert NoDuplicates(t) by {
      forall i, j | 0 <= i < j < |t| ensures t[i] != t[j] {
        assert t[i] == s[i + 1] && t[j] == s[j + 1];
      }
    }
    assert s[0] !in t by {
      forall k | 0 <= k < |t| ensures t[k] != s[0] {
        assert t[k] == s[k + 1];
      }
    }
    if s[0] != x {
      RemoveFirstNoDuplicates(t, x);
      var r := RemoveFirst(t, x);
      assert s[0] !in r by {
        assert s[0] !in multiset(t);
        assert multiset(r) <= multiset(t);
      }
      assert RemoveFirst(s, x) == [s[0]] + r;
    }
  }

  /** Removing an event just appended gives back the list before it. */
  lemma RemoveFirstAppended(s: seq<EventId>, x: EventId)
    requires x !in s
    ensures RemoveFirst(s + [x], x) == s
  {
    var t := s + [x];
    assert t[..|s|] == s;
    RemoveFirstAt(t, x, |s|);
    assert t[|s| + 1..] == [];
  }

  // ---------------------------------------------------------------------
  // Invariants

  /** Appending only after a not-in check keeps both invariants. */
  lemma NewLikePreservesWellFormed(st: Store, u: UserId, e: EventId)
    requires WellFormed(st)
    ensures WellFormed(NewLike(st, u, e).store)
  {
  }

  /** Deleting the record instead of storing `[]` keeps both invariants. */
  lemma CancelLikePreservesWellFormed(st: Store, u: UserId, e: EventId)
    requires WellFormed(st)
    ensures WellFormed(CancelLike(st, u, e).store)
  {
    if IsLiked(st, u, e) && |st[u]| > 1 {
      RemoveFirstNoDuplicates(st[u], e);
    }
  }

  // ---------------------------------------------------------------------
  // Properties of the operations

  /** A second like of the same event reports false and changes nothing. */
  lemma NewLikeIdempotent(st: Store, u: UserId, e: EventId)
    ensures var once := NewLike(st, u, e);
            NewLike(once.store, u, e) == Outcome(once.store, false)
  {
  }

  /** After a cancel in a well-formed store the event is no longer liked. */
  lemma CancelLikeUnlikes(st: Store, u: UserId, e: EventId)
    requires WellFormed(st)
    ensures !IsLiked(CancelLike(st, u, e).store, u, e)
  {
    if IsLiked(st, u, e) && |st[u]| > 1 {
      RemoveFirstNoDuplicates(st[u], e);
    }
  }

  /**
    Liking a new event and cancelling it restores the store exactly, whether
    the like was the user's first or was appended to an existing list.
   */
  lemma CancelUndoesNewLike(st: Store, u: UserId, e: EventId)
    requires WellFormed(st) && !IsLiked(st, u, e)
    ensures NewLike(st, u, e).changed
    ensures CancelLike(NewLike(st, u, e).store, u, e) == Outcome(st, true)
  {
    var added := NewLike(st, u, e).store;
    if u in st {
      RemoveFirstAppended(st[u], e);
      assert added[u := RemoveFirst(added[u], e)] == st;
    } else {
      assert added - {u} == st;
    }
  }

  /** Cancelling the last like deletes the record, so `_get_likes` gives None. */
  lemma CancelLastLikeDeletesRecord(st: Store, u: UserId, e: EventId)
    requires u in st && st[u] == [e]
    ensures CancelLike(st, u, e).changed
    ensures GetLikes(CancelLike(st, u, e).store, u) == None
  {
  }

  /**
    The usage scenario of the service: like e1 twice, like e2, cancel e1,
    cancel e2, checking every return value and every listing on the way.
   */
  lemma Scenario()
    ensures var s0: Store := map[];
            var a := NewLike(s0, "u1", "e1");
            var b := NewLike(a.store, "u1", "e1");
            var c := NewLike(b.store, "u1", "e2");
            var d := CancelLike(c.store, "u1", "e1");
            var f := CancelLike(d.store, "u1", "e2");
            && a.changed && !b.changed && c.changed && d.changed && f.changed
            && GetLikes(c.store, "u1") == Some(["e1", "e2"])
            && GetLikes(d.store, "u1") == Some(["e2"])
            && GetLikes(f.store, "u1") == None
  {
    var s0: Store := map[];
    var a := NewLike(s0, "u1", "e1");
    assert a.store == map["u1" := ["e1"]];
    var b := NewLike(a.store, "u1", "e1");
    assert b.store == a.store;
    var c := NewLike(b.store, "u1", "e2");
    assert "e2" !in ["e1"];
    assert ["e1"] + ["e2"] == ["e1", "e2"];
    assert c.store == map["u1" := ["e1", "e2"]];
    RemoveFirstAt(["e1", "e2"], "e1", 0);
  }

  /**
    The code raises on a membership test for a user without a record, where
    the corrected query answers false.
   */
  lemma IsEventLikedRaisesForUnknownUser(st: Store, u: UserId, e: EventId)
    requires u !in st
    ensures IsEventLikedAsWritten(st, u, e) == Err(TypeError)
    ensures !IsEventLiked(st, u, e)
  {
  }
}
