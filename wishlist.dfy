/** The Wishlist resource (controllers/wishlistController.js over the table of
    models/wishlist.js): an idempotent add keyed on (user, product), and removals
    scoped to the caller. */
module WishlistController {
  import opened Common
  import opened Seqs

  /** A row of the Wishlist table, with the timestamps the table keeps. */
  datatype WishlistItem = WishlistItem(id: int, userId: int, productId: int, createdAt: int, updatedAt: int)

  /** One element of getWishlist's reply. The joined product snapshot is not modelled. */
  datatype WishlistEntry = WishlistEntry(id: int, userId: int, productId: int, createdAt: int, updatedAt: int)

  /** `where: { userId }` */
  function OfUser(userId: int): WishlistItem -> bool
  {
    (x: WishlistItem) => x.userId == userId
  }

  /** The rows that survive `destroy({ where: { userId } })`. */
  function NotOfUser(userId: int): WishlistItem -> bool
  {
    (x: WishlistItem) => x.userId != userId
  }

  /** `where: { userId, productId }` */
  function IsPair(userId: int, productId: int): WishlistItem -> bool
  {
    (x: WishlistItem) => x.userId == userId && x.productId == productId
  }

  /** `where: { id, userId }` */
  function IsOwnedRow(id: int, userId: int): WishlistItem -> bool
  {
    (x: WishlistItem) => x.id == id && x.userId == userId
  }

  function DistinctIds(): (WishlistItem, WishlistItem) -> bool
  {
    (a: WishlistItem, b: WishlistItem) => a.id != b.id
  }

  function DistinctPairs(): (WishlistItem, WishlistItem) -> bool
  {
    (a: WishlistItem, b: WishlistItem) => a.userId != b.userId || a.productId != b.productId
  }

  /** Unique keys below the next key, and at most one row per (userId, productId). */
  ghost predicate TableInvariant(rows: seq<WishlistItem>, nextId: int)
  {
    && Pairwise(rows, DistinctIds())
    && Pairwise(rows, DistinctPairs())
    && (forall x :: x in rows ==> x.id < nextId)
  }

  function ToEntry(x: WishlistItem): WishlistEntry
  {
    WishlistEntry(x.id, x.userId, x.productId, x.createdAt, x.updatedAt)
  }

  /** getWishlist: the caller's rows, in table order, each mapped to a reply entry. */
  function Entries(rows: seq<WishlistItem>, userId: int): (r: seq<WishlistEntry>)
    ensures |r| == |Filter(rows, OfUser(userId))|
    ensures forall k :: 0 <= k < |r| ==> r[k] == ToEntry(Filter(rows, OfUser(userId))[k])
    ensures forall k :: 0 <= k < |r| ==> r[k].userId == userId
  {
    var mine := Filter(rows, OfUser(userId));
    assert forall k :: 0 <= k < |mine| ==> mine[k] in mine;
    seq(|mine|, k requires 0 <= k < |mine| => ToEntry(mine[k]))
  }

  /** The table after addToWishlist: unchanged when the pair is already present,
      otherwise one new row under the next key, stamped `now`. */
  function AddedToWishlist(rows: seq<WishlistItem>, nextId: int, userId: int, productId: int, now: int): seq<WishlistItem>
  {
    if FindFirst(rows, IsPair(userId, productId)).Some? then rows
    else rows + [WishlistItem(nextId, userId, productId, now, now)]
  }

  /** The table after removeWishlistItem. */
  function RemovedFromWishlist(rows: seq<WishlistItem>, id: int, userId: int): seq<WishlistItem>
  {
    match FindFirst(rows, IsOwnedRow(id, userId))
    case None => rows
    case Some(i) => rows[..i] + rows[i + 1..]
  }

  /** The table after clearWishlist. */
  function ClearedWishlist(rows: seq<WishlistItem>, userId: int): seq<WishlistItem>
  {
    Filter(rows, NotOfUser(userId))
  }

  /** Every (userId, productId) pair that addToWishlist is asked for is present afterwards. */
  lemma AddedPairPresent(rows: seq<WishlistItem>, nextId: int, userId: int, productId: int, now: int)
    ensures FindFirst(AddedToWishlist(rows, nextId, userId, productId, now), IsPair(userId, productId)).Some?
  {
    var r := AddedToWishlist(rows, nextId, userId, productId, now);
    if FindFirst(rows, IsPair(userId, productId)).None? {
      assert IsPair(userId, productId)(r[|rows|]);
    }
  }

  /** addToWishlist on a pair already present changes nothing ("Already in wishlist");
      otherwise it inserts exactly one row. */
  lemma AddToWishlistCases(rows: seq<WishlistItem>, nextId: int, userId: int, productId: int, now: int)
    ensures (exists k :: 0 <= k < |rows| && rows[k].userId == userId && rows[k].productId == productId) ==>
              AddedToWishlist(rows, nextId, userId, productId, now) == rows
    ensures (forall k :: 0 <= k < |rows| ==> rows[k].userId != userId || rows[k].productId != productId) ==>
              AddedToWishlist(rows, nextId, userId, productId, now) == rows + [WishlistItem(nextId, userId, productId, now, now)]
  {
    if exists k :: 0 <= k < |rows| && rows[k].userId == userId && rows[k].productId == productId {
      var k :| 0 <= k < |rows| && rows[k].userId == userId && rows[k].productId == productId;
      assert IsPair(userId, productId)(rows[k]);
    }
  }

  /** addToWishlist is idempotent: a second identical add, at any later key and time,
      leaves the table as the first one left it. */
  lemma {:induction false} AddToWishlistIdempotent(rows: seq<WishlistItem>, nextId: int, nextId': int,
                                                   userId: int, productId: int, now: int, now': int)
    ensures var once := AddedToWishlist(rows, nextId, userId, productId, now);
            AddedToWishlist(once, nextId', userId, productId, now') == once
  {
    AddedPairPresent(rows, nextId, userId, productId, now);
  }

  /** addToWishlist keeps (userId, productId) pairs unique, and the key invariant. */
  lemma AddToWishlistKeepsInvariant(rows: seq<WishlistItem>, nextId: int, userId: int, productId: int, now: int)
    requires TableInvariant(rows, nextId)
    ensures var nextId' := if FindFirst(rows, IsPair(userId, productId)).Some? then nextId else nextId + 1;
            TableInvariant(AddedToWishlist(rows, nextId, userId, productId, now), nextId')
  {
    if FindFirst(rows, IsPair(userId, productId)).None? {
      var x := WishlistItem(nextId, userId, productId, now, now);
      assert forall k :: 0 <= k < |rows| ==> rows[k] in rows;
      PairwiseAppend(rows, x, DistinctIds());
      PairwiseAppend(rows, x, DistinctPairs());
    }
  }

  /** removeWishlistItem changes nothing unless a row matches both `id` and the caller;
      on a match it removes exactly that row. */
  lemma RemoveWishlistItemCases(rows: seq<WishlistItem>, id: int, userId: int, i: nat)
    requires Pairwise(rows, DistinctIds())
    ensures (forall k :: 0 <= k < |rows| ==> rows[k].id != id || rows[k].userId != userId) ==>
              RemovedFromWishlist(rows, id, userId) == rows
    ensures i < |rows| && rows[i].id == id && rows[i].userId == userId ==>
              RemovedFromWishlist(rows, id, userId) == rows[..i] + rows[i + 1..]
  {
    if i < |rows| && rows[i].id == id && rows[i].userId == userId {
      assert IsOwnedRow(id, userId)(rows[i]);
    }
  }

  /** clearWishlist removes all and only the caller's rows. */
  lemma ClearWishlistScoped(rows: seq<WishlistItem>, userId: int, other: int)
    requires other != userId
    ensures Filter(ClearedWishlist(rows, userId), OfUser(userId)) == []
    ensures Filter(ClearedWishlist(rows, userId), OfUser(other)) == Filter(rows, OfUser(other))
  {
    var c := ClearedWishlist(rows, userId);
    forall j | 0 <= j < |c| ensures !OfUser(userId)(c[j]) {
      assert c[j] in c;
    }
    FilterNone(c, OfUser(userId));
    FilterOfFilter(rows, NotOfUser(userId), OfUser(other));
  }

  /** addToWishlist and removeWishlistItem by one user leave every other user's wishlist as it was. */
  lemma WishlistOpsKeepOtherUsers(rows: seq<WishlistItem>, nextId: int, userId: int, other: int,
                                  id: int, productId: int, now: int)
    requires other != userId
    ensures Filter(AddedToWishlist(rows, nextId, userId, productId, now), OfUser(other)) == Filter(rows, OfUser(other))
    ensures Filter(RemovedFromWishlist(rows, id, userId), OfUser(other)) == Filter(rows, OfUser(other))
  {
    if FindFirst(rows, IsPair(userId, productId)).None? {
      FilterAppendUnselected(rows, WishlistItem(nextId, userId, productId, now, now), OfUser(other));
    }
    match FindFirst(rows, IsOwnedRow(id, userId))
    case Some(i) =>
      FilterRemoveUnselected(rows, i, OfUser(other));
    case None =>
  }

  /** The Wishlist table. */
  class WishlistTable {
    var rows: seq<WishlistItem>
    var nextId: int

    ghost predicate Valid()
      reads this
    {
      TableInvariant(rows, nextId)
    }

    constructor ()
      ensures Valid() && rows == []
    {
      rows := [];
      nextId := 1;
    }

    /** getWishlist: one entry per row of the caller, in order, fields copied. */
    method GetWishlist(caller: Caller) returns (reply: Reply<WishlistEntry>)
      ensures reply.status == OK && reply.body.Items?
      ensures |reply.body.values| == |Filter(rows, OfUser(caller.id))|
      ensures forall k :: 0 <= k < |reply.body.values| ==>
                var x := Filter(rows, OfUser(caller.id))[k];
                reply.body.values[k] == WishlistEntry(x.id, x.userId, x.productId, x.createdAt, x.updatedAt)
      ensures forall e :: e in reply.body.values ==> e.userId == caller.id
    {
      reply := Reply(OK, Items(Entries(rows, caller.id)));
    }

    /** addToWishlist: 200 "Already in wishlist" with no change, or 201 with the new row. */
    method AddToWishlist(caller: Caller, productId: int, now: int) returns (reply: Reply<WishlistEntry>)
      requires Valid()
      modifies this
      ensures Valid()
      ensures rows == AddedToWishlist(old(rows), old(nextId), caller.id, productId, now)
      ensures FindFirst(old(rows), IsPair(caller.id, productId)).Some? ==>
                nextId == old(nextId) && reply == Reply(OK, Message("Already in wishlist"))
      ensures FindFirst(old(rows), IsPair(caller.id, productId)).None? ==>
                nextId == old(nextId) + 1 &&
                reply == Reply(Created, Item(WishlistEntry(old(nextId), caller.id, productId, now, now)))
    {
      AddToWishlistKeepsInvariant(rows, nextId, caller.id, productId, now);
      var existing := FindFirst(rows, IsPair(caller.id, productId));
      if existing.Some? {
        return Reply(OK, Message("Already in wishlist"));
      }
      var item := WishlistItem(nextId, caller.id, productId, now, now);
      rows := rows + [item];
      nextId := nextId + 1;
      reply := Reply(Created, Item(ToEntry(item)));
    }

    /** removeWishlistItem: 404 unless a row matches both `id` and the caller. */
    method RemoveWishlistItem(caller: Caller, id: int) returns (reply: Reply<WishlistEntry>)
      requires Valid()
      modifies this
      ensures Valid() && nextId == old(nextId)
      ensures rows == RemovedFromWishlist(old(rows), id, caller.id)
      ensures reply == if FindFirst(old(rows), IsOwnedRow(id, caller.id)).None?
                       then Reply(NotFound, Message("Wishlist item not found"))
                       else Reply(OK, Message("Item removed from wishlist"))
    {
      var found := FindFirst(rows, IsOwnedRow(id, caller.id));
      if found.None? {
        return Reply(NotFound, Message("Wishlist item not found"));
      }
      var i := found.value;
      PairwiseRemove(rows, i, DistinctIds());
      PairwiseRemove(rows, i, DistinctPairs());
      rows := rows[..i] + rows[i + 1..];
      reply := Reply(OK, Message("Item removed from wishlist"));
    }

    /** clearWishlist: deletes every row of the caller. */
    method ClearWishlist(caller: Caller) returns (reply: Reply<WishlistEntry>)
      requires Valid()
      modifies this
      ensures Valid() && nextId == old(nextId)
      ensures rows == ClearedWishlist(old(rows), caller.id)
      ensures reply == Reply(OK, Message("Wishlist cleared"))
    {
      PairwiseFilter(rows, DistinctIds(), NotOfUser(caller.id));
      PairwiseFilter(rows, DistinctPairs(), NotOfUser(caller.id));
      rows := Filter(rows, NotOfUser(caller.id));
      reply := Reply(OK, Message("Wishlist cleared"));
    }
  }
}
