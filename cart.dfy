/** The Cart resource (controllers/cartController.js over the table of models/Cart.js):
    one row per (user, product) kept by a find-or-increment merge, a quantity-zero
    update that deletes the row, and removals scoped to the caller. */
module CartController {
  import opened Common
  import opened Seqs

  /** A row of the Cart table: primary key, owner, product and quantity. */
  datatype CartItem = CartItem(id: int, userId: int, productId: int, quantity: int)

  /** `where: { userId }` */
  function OfUser(userId: int): CartItem -> bool
  {
    (x: CartItem) => x.userId == userId
  }

  /** The rows that survive `destroy({ where: { userId } })`. */
  function NotOfUser(userId: int): CartItem -> bool
  {
    (x: CartItem) => x.userId != userId
  }

  /** `where: { userId, productId }` */
  function IsPair(userId: int, productId: int): CartItem -> bool
  {
    (x: CartItem) => x.userId == userId && x.productId == productId
  }

  /** `where: { id, userId }` */
  function IsOwnedRow(id: int, userId: int): CartItem -> bool
  {
    (x: CartItem) => x.id == id && x.userId == userId
  }

  function DistinctIds(): (CartItem, CartItem) -> bool
  {
    (a: CartItem, b: CartItem) => a.id != b.id
  }

  function DistinctPairs(): (CartItem, CartItem) -> bool
  {
    (a: CartItem, b: CartItem) => a.userId != b.userId || a.productId != b.productId
  }

  /** The table invariant: primary keys are unique and below the next key to be
      handed out, and no two rows share a (userId, productId) pair. The schema has
      no unique key on the pair; only addToCart's find-then-create keeps it. */
  ghost predicate TableInvariant(rows: seq<CartItem>, nextId: int)
  {
    && Pairwise(rows, DistinctIds())
    && Pairwise(rows, DistinctPairs())
    && (forall x :: x in rows ==> x.id < nextId)
  }

  /** The table after addToCart: the existing row's quantity grows by the requested
      amount, or a new row is created under the next key. */
  function AddedToCart(rows: seq<CartItem>, nextId: int, userId: int, productId: int, quantity: int): seq<CartItem>
  {
    match FindFirst(rows, IsPair(userId, productId))
    case Some(i) => rows[i := rows[i].(quantity := rows[i].quantity + quantity)]
    case None => rows + [CartItem(nextId, userId, productId, quantity)]
  }

  /** The table after updateCartItem: no change when the caller owns no row `id`;
      quantity exactly 0 destroys the row; any other quantity overwrites it. */
  function UpdatedCart(rows: seq<CartItem>, id: int, userId: int, quantity: int): seq<CartItem>
  {
    match FindFirst(rows, IsOwnedRow(id, userId))
    case None => rows
    case Some(i) =>
      if quantity == 0 then rows[..i] + rows[i + 1..]
      else rows[i := rows[i].(quantity := quantity)]
  }

  /** The table after removeCartItem. */
  function RemovedFromCart(rows: seq<CartItem>, id: int, userId: int): seq<CartItem>
  {
    match FindFirst(rows, IsOwnedRow(id, userId))
    case None => rows
    case Some(i) => rows[..i] + rows[i + 1..]
  }

  /** The table after clearCart. */
  function ClearedCart(rows: seq<CartItem>, userId: int): seq<CartItem>
  {
    Filter(rows, NotOfUser(userId))
  }

  /** With unique keys, `findOne({ where: { id, userId } })` finds the one row that has them. */
  lemma FindOwnedRow(rows: seq<CartItem>, id: int, userId: int, i: nat)
    requires Pairwise(rows, DistinctIds())
    requires i < |rows| && rows[i].id == id && rows[i].userId == userId
    ensures FindFirst(rows, IsOwnedRow(id, userId)) == Some(i)
  {
    assert IsOwnedRow(id, userId)(rows[i]);
  }

  /** addToCart on a (user, product) pair that has a row: that row's quantity becomes
      old + requested, and no row is added. */
  lemma AddToCartMergesExisting(rows: seq<CartItem>, nextId: int, userId: int, productId: int, quantity: int, i: nat)
    requires Pairwise(rows, DistinctPairs())
    requires i < |rows| && rows[i].userId == userId && rows[i].productId == productId
    ensures AddedToCart(rows, nextId, userId, productId, quantity)
         == rows[i := rows[i].(quantity := rows[i].quantity + quantity)]
    ensures |AddedToCart(rows, nextId, userId, productId, quantity)| == |rows|
  {
    assert IsPair(userId, productId)(rows[i]);
  }

  /** addToCart on a pair with no row inserts exactly one row (userId, productId, quantity). */
  lemma AddToCartInsertsNew(rows: seq<CartItem>, nextId: int, userId: int, productId: int, quantity: int)
    requires forall k :: 0 <= k < |rows| ==> rows[k].userId != userId || rows[k].productId != productId
    ensures AddedToCart(rows, nextId, userId, productId, quantity)
         == rows + [CartItem(nextId, userId, productId, quantity)]
  {
  }

  /** addToCart keeps the table invariant, in particular "at most one row per
      (userId, productId)", and afterwards the pair has a row. */
  lemma AddToCartKeepsInvariant(rows: seq<CartItem>, nextId: int, userId: int, productId: int, quantity: int)
    requires TableInvariant(rows, nextId)
    ensures var nextId' := if FindFirst(rows, IsPair(userId, productId)).Some? then nextId else nextId + 1;
            TableInvariant(AddedToCart(rows, nextId, userId, productId, quantity), nextId')
    ensures exists k :: 0 <= k < |AddedToCart(rows, nextId, userId, productId, quantity)|
                     && IsPair(userId, productId)(AddedToCart(rows, nextId, userId, productId, quantity)[k])
  {
    var r' := AddedToCart(rows, nextId, userId, productId, quantity);
    match FindFirst(rows, IsPair(userId, productId))
    case Some(i) =>
      var x := rows[i].(quantity := rows[i].quantity + quantity);
      PairwiseUpdate(rows, i, x, DistinctIds());
      PairwiseUpdate(rows, i, x, DistinctPairs());
      assert IsPair(userId, productId)(r'[i]);
    case None =>
      var x := CartItem(nextId, userId, productId, quantity);
      PairwiseAppend(rows, x, DistinctIds());
      PairwiseAppend(rows, x, DistinctPairs());
      assert IsPair(userId, productId)(r'[|rows|]);
  }

  /** updateCartItem when the caller owns no row `id`: the table is unchanged
      (the handler answers 404), even if another user owns a row with that key. */
  lemma UpdateCartItemMissing(rows: seq<CartItem>, id: int, userId: int, quantity: int)
    requires forall k :: 0 <= k < |rows| ==> rows[k].id != id || rows[k].userId != userId
    ensures UpdatedCart(rows, id, userId, quantity) == rows
    ensures RemovedFromCart(rows, id, userId) == rows
  {
  }

  /** updateCartItem with quantity exactly 0 deletes the caller's row `id` and no other. */
  lemma UpdateCartItemZeroDeletes(rows: seq<CartItem>, id: int, userId: int, i: nat)
    requires Pairwise(rows, DistinctIds())
    requires i < |rows| && rows[i].id == id && rows[i].userId == userId
    ensures UpdatedCart(rows, id, userId, 0) == rows[..i] + rows[i + 1..]
    ensures forall x :: x in UpdatedCart(rows, id, userId, 0) ==> x.id != id
  {
    FindOwnedRow(rows, id, userId, i);
    var r := rows[..i] + rows[i + 1..];
    forall x | x in r ensures x.id != id {
      var k :| 0 <= k < |r| && r[k] == x;
      var k' := if k < i then k else k + 1;
      assert r[k] == rows[k'];
      assert DistinctIds()(rows[k'], rows[i]) || DistinctIds()(rows[i], rows[k']);
    }
  }

  /** updateCartItem with a non-zero quantity overwrites that row's quantity; every
      other row, and every other field of that row, is unchanged. */
  lemma UpdateCartItemOverwrites(rows: seq<CartItem>, id: int, userId: int, quantity: int, i: nat)
    requires Pairwise(rows, DistinctIds())
    requires i < |rows| && rows[i].id == id && rows[i].userId == userId
    requires quantity != 0
    ensures |UpdatedCart(rows, id, userId, quantity)| == |rows|
    ensures UpdatedCart(rows, id, userId, quantity)[i] == CartItem(id, userId, rows[i].productId, quantity)
    ensures forall k :: 0 <= k < |rows| && k != i ==> UpdatedCart(rows, id, userId, quantity)[k] == rows[k]
  {
    FindOwnedRow(rows, id, userId, i);
  }

  /** removeCartItem deletes exactly the caller's row `id`. */
  lemma RemoveCartItemDeletesMatch(rows: seq<CartItem>, id: int, userId: int, i: nat)
    requires Pairwise(rows, DistinctIds())
    requires i < |rows| && rows[i].id == id && rows[i].userId == userId
    ensures RemovedFromCart(rows, id, userId) == rows[..i] + rows[i + 1..]
  {
    FindOwnedRow(rows, id, userId, i);
  }

  /** clearCart removes every row of the caller and leaves every other user's cart as it was. */
  lemma ClearCartScoped(rows: seq<CartItem>, userId: int, other: int)
    requires other != userId
    ensures Filter(ClearedCart(rows, userId), OfUser(userId)) == []
    ensures Filter(ClearedCart(rows, userId), OfUser(other)) == Filter(rows, OfUser(other))
  {
    var c := ClearedCart(rows, userId);
    forall j | 0 <= j < |c| ensures !OfUser(userId)(c[j]) {
      assert c[j] in c;
    }
    FilterNone(c, OfUser(userId));
    FilterOfFilter(rows, NotOfUser(userId), OfUser(other));
  }

  /** addToCart by one user leaves every other user's cart as it was. */
  lemma AddToCartKeepsOtherUsers(rows: seq<CartItem>, nextId: int, userId: int, productId: int, quantity: int, other: int)
    requires other != userId
    ensures Filter(AddedToCart(rows, nextId, userId, productId, quantity), OfUser(other)) == Filter(rows, OfUser(other))
  {
    match FindFirst(rows, IsPair(userId, productId))
    case Some(i) =>
      FilterUpdateUnselected(rows, i, rows[i].(quantity := rows[i].quantity + quantity), OfUser(other));
    case None =>
      FilterAppendUnselected(rows, CartItem(nextId, userId, productId, quantity), OfUser(other));
  }

  /** updateCartItem by one user leaves every other user's cart as it was. */
  lemma UpdateCartItemKeepsOtherUsers(rows: seq<CartItem>, id: int, userId: int, quantity: int, other: int)
    requires other != userId
    ensures Filter(UpdatedCart(rows, id, userId, quantity), OfUser(other)) == Filter(rows, OfUser(other))
  {
    match FindFirst(rows, IsOwnedRow(id, userId))
    case Some(i) =>
      if quantity == 0 {
        FilterRemoveUnselected(rows, i, OfUser(other));
      } else {
        FilterUpdateUnselected(rows, i, rows[i].(quantity := quantity), OfUser(other));
      }
    case None =>
  }

  /** removeCartItem by one user leaves every other user's cart as it was. */
  lemma RemoveCartItemKeepsOtherUsers(rows: seq<CartItem>, id: int, userId: int, other: int)
    requires other != userId
    ensures Filter(RemovedFromCart(rows, id, userId), OfUser(other)) == Filter(rows, OfUser(other))
  {
    match FindFirst(rows, IsOwnedRow(id, userId))
    case Some(i) =>
      FilterRemoveUnselected(rows, i, OfUser(other));
    case None =>
  }

  /** The Cart table. */
  class CartTable {
    var rows: seq<CartItem>
    var nextId: int

    ghost predicate Valid()
      reads this
    {
      TableInvariant(rows, nextId)
    }

    constructor ()
      ensures Valid() && rows == []
    {
      rows := [];
      nextId := 1;
    }

    /** getCart: exactly the caller's rows, in table order. */
    method GetCart(caller: Caller) returns (reply: Reply<CartItem>)
      ensures reply.status == OK && reply.body.Items?
      ensures forall x :: x in reply.body.values <==> x in rows && x.userId == caller.id
      ensures reply.body.values == Filter(rows, OfUser(caller.id))
    {
      reply := Reply(OK, Items(Filter(rows, OfUser(caller.id))));
    }

    /** addToCart: find-or-increment on (caller, productId); always 201 with the row. */
    method AddToCart(caller: Caller, productId: int, quantity: int) returns (reply: Reply<CartItem>)
      requires Valid()
      modifies this
      ensures Valid()
      ensures rows == AddedToCart(old(rows), old(nextId), caller.id, productId, quantity)
      ensures nextId == if FindFirst(old(rows), IsPair(caller.id, productId)).Some? then old(nextId) else old(nextId) + 1
      ensures reply.status == Created && reply.body.Item? && reply.body.value in rows
      ensures reply.body.value.userId == caller.id && reply.body.value.productId == productId
    {
      AddToCartKeepsInvariant(rows, nextId, caller.id, productId, quantity);
      var found := FindFirst(rows, IsPair(caller.id, productId));
      if found.Some? {
        var i := found.value;
        var item := rows[i];
        item := item.(quantity := item.quantity + quantity);
        rows := rows[i := item];
        reply := Reply(Created, Item(item));
      } else {
        var item := CartItem(nextId, caller.id, productId, quantity);
        rows := rows + [item];
        nextId := nextId + 1;
        reply := Reply(Created, Item(item));
      }
    }

    /** updateCartItem: 404 unless the caller owns row `id`; quantity 0 destroys it,
        any other quantity overwrites it. */
    method UpdateCartItem(caller: Caller, id: int, quantity: int) returns (reply: Reply<CartItem>)
      requires Valid()
      modifies this
      ensures Valid() && nextId == old(nextId)
      ensures rows == UpdatedCart(old(rows), id, caller.id, quantity)
      ensures FindFirst(old(rows), IsOwnedRow(id, caller.id)).None? ==>
                reply == Reply(NotFound, Message("Cart item not found"))
      ensures FindFirst(old(rows), IsOwnedRow(id, caller.id)).Some? && quantity == 0 ==>
                reply == Reply(OK, Message("Item removed (quantity was 0)"))
      ensures FindFirst(old(rows), IsOwnedRow(id, caller.id)).Some? && quantity != 0 ==>
                reply.status == OK && reply.body.Item? && reply.body.value.id == id &&
                reply.body.value.quantity == quantity && reply.body.value in rows
    {
      var found := FindFirst(rows, IsOwnedRow(id, caller.id));
      if found.None? {
        return Reply(NotFound, Message("Cart item not found"));
      }
      var i := found.value;
      if quantity == 0 {
        PairwiseRemove(rows, i, DistinctIds());
        PairwiseRemove(rows, i, DistinctPairs());
        rows := rows[..i] + rows[i + 1..];
        return Reply(OK, Message("Item removed (quantity was 0)"));
      }
      var item := rows[i].(quantity := quantity);
      PairwiseUpdate(rows, i, item, DistinctIds());
      PairwiseUpdate(rows, i, item, DistinctPairs());
      rows := rows[i := item];
      assert rows[i] == item;
      reply := Reply(OK, Item(item));
    }

    /** removeCartItem: 404 unless the caller owns row `id`; otherwise destroys it. */
    method RemoveCartItem(caller: Caller, id: int) returns (reply: Reply<CartItem>)
      requires Valid()
      modifies this
      ensures Valid() && nextId == old(nextId)
      ensures rows == RemovedFromCart(old(rows), id, caller.id)
      ensures reply == if FindFirst(old(rows), IsOwnedRow(id, caller.id)).None?
                       then Reply(NotFound, Message("Cart item not found"))
                       else Reply(OK, Message("Item removed"))
    {
      var found := FindFirst(rows, IsOwnedRow(id, caller.id));
      if found.None? {
        return Reply(NotFound, Message("Cart item not found"));
      }
      var i := found.value;
      PairwiseRemove(rows, i, DistinctIds());
      PairwiseRemove(rows, i, DistinctPairs());
      rows := rows[..i] + rows[i + 1..];
      reply := Reply(OK, Message("Item removed"));
    }

    /** clearCart: destroys every row of the caller. */
    method ClearCart(caller: Caller) returns (reply: Reply<CartItem>)
      requires Valid()
      modifies this
      ensures Valid() && nextId == old(nextId)
      ensures rows == ClearedCart(old(rows), caller.id)
      ensures reply == Reply(OK, Message("Cart cleared"))
    {
      PairwiseFilter(rows, DistinctIds(), NotOfUser(caller.id));
      PairwiseFilter(rows, DistinctPairs(), NotOfUser(caller.id));
      rows := Filter(rows, NotOfUser(caller.id));
      reply := Reply(OK, Message("Cart cleared"));
    }
  }
}
