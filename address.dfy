/** The Address resource (controllers/adressController.js over the table of
    models/Adress.js): at most one default address per user, kept by clearing all of
    the user's defaults before one is set. */
module AddressController {
  import opened Common
  import opened Seqs

  /** A row of the Address table; `isDefault` defaults to false. */
  datatype Address = Address(id: int, userId: int, fullName: string, phone: string, city: string,
                             street: string, postalCode: Option<string>, isDefault: bool)

  /** The address fields of an upsertAddress request body. */
  datatype AddressFields = AddressFields(fullName: string, phone: string, city: string,
                                         street: string, postalCode: Option<string>)

  /** `where: { userId }` */
  function OfUser(userId: int): Address -> bool
  {
    (x: Address) => x.userId == userId
  }

  /** `where: { id, userId }` */
  function IsOwnedRow(id: int, userId: int): Address -> bool
  {
    (x: Address) => x.id == id && x.userId == userId
  }

  function DistinctIds(): (Address, Address) -> bool
  {
    (a: Address, b: Address) => a.id != b.id
  }

  /** Two addresses of the same user are never both default. */
  function NotBothDefault(): (Address, Address) -> bool
  {
    (a: Address, b: Address) => a.userId != b.userId || !a.isDefault || !b.isDefault
  }

  /** The table invariant: unique keys below the next key, and at most one default
      address per user. */
  ghost predicate TableInvariant(rows: seq<Address>, nextId: int)
  {
    && Pairwise(rows, DistinctIds())
    && Pairwise(rows, NotBothDefault())
    && (forall x :: x in rows ==> x.id < nextId)
  }

  /** `Address.update({ isDefault: false }, { where: { userId } })` */
  function ClearDefaults(rows: seq<Address>, userId: int): seq<Address>
  {
    seq(|rows|, k requires 0 <= k < |rows| =>
      if rows[k].userId == userId then rows[k].(isDefault := false) else rows[k])
  }

  /** The table after upsertAddress: when the new address is to be the default, every
      address of the user loses its flag first; then the new address is always
      appended under the next key. */
  function Upserted(rows: seq<Address>, nextId: int, userId: int, fields: AddressFields, isDefault: bool): seq<Address>
  {
    var before := if isDefault then ClearDefaults(rows, userId) else rows;
    before + [Address(nextId, userId, fields.fullName, fields.phone, fields.city,
                      fields.street, fields.postalCode, isDefault)]
  }

  /** The table after setDefaultAddress: no change when the caller owns no address
      `id`; otherwise every address of the caller loses its flag and that one gets it. */
  function WithDefault(rows: seq<Address>, id: int, userId: int): seq<Address>
  {
    match FindFirst(rows, IsOwnedRow(id, userId))
    case None => rows
    case Some(i) =>
      var cleared := ClearDefaults(rows, userId);
      cleared[i := cleared[i].(isDefault := true)]
  }

  /** upsertAddress appends exactly one address and never edits the fields of an
      existing one: at most their default flag is cleared, and only the caller's. */
  lemma UpsertAppendsOne(rows: seq<Address>, nextId: int, userId: int, fields: AddressFields, isDefault: bool)
    ensures var r := Upserted(rows, nextId, userId, fields, isDefault);
      && |r| == |rows| + 1
      && r[|rows|] == Address(nextId, userId, fields.fullName, fields.phone, fields.city,
                              fields.street, fields.postalCode, isDefault)
      && (forall k :: 0 <= k < |rows| ==> r[k] == rows[k].(isDefault := r[k].isDefault))
      && (forall k :: 0 <= k < |rows| && r[k].isDefault ==> rows[k].isDefault)
      && (forall k :: 0 <= k < |rows| && rows[k].userId != userId ==> r[k] == rows[k])
  {
  }

  /** upsertAddress with isDefault true leaves the new address as the caller's only default. */
  lemma UpsertDefaultIsOnlyDefault(rows: seq<Address>, nextId: int, userId: int, fields: AddressFields)
    ensures var r := Upserted(rows, nextId, userId, fields, true);
      && r[|rows|].isDefault
      && forall k :: 0 <= k < |rows| && r[k].userId == userId ==> !r[k].isDefault
  {
  }

  /** upsertAddress with isDefault omitted or false leaves every existing address
      unchanged and inserts the new one as non-default. */
  lemma UpsertNonDefaultKeepsRows(rows: seq<Address>, nextId: int, userId: int, fields: AddressFields)
    ensures Upserted(rows, nextId, userId, fields, false)
         == rows + [Address(nextId, userId, fields.fullName, fields.phone, fields.city,
                            fields.street, fields.postalCode, false)]
  {
  }

  lemma ClearDefaultsKeepsInvariant(rows: seq<Address>, nextId: int, userId: int)
    requires TableInvariant(rows, nextId)
    ensures TableInvariant(ClearDefaults(rows, userId), nextId)
    ensures forall k :: 0 <= k < |rows| && ClearDefaults(rows, userId)[k].userId == userId ==>
              !ClearDefaults(rows, userId)[k].isDefault
  {
    var c := ClearDefaults(rows, userId);
    forall x | x in c ensures x.id < nextId {
      var k :| 0 <= k < |c| && c[k] == x;
      assert rows[k] in rows;
    }
    assert Pairwise(c, DistinctIds()) by {
      forall i, j | 0 <= i < j < |c| ensures DistinctIds()(c[i], c[j]) {
        assert DistinctIds()(rows[i], rows[j]);
      }
    }
    assert Pairwise(c, NotBothDefault()) by {
      forall i, j | 0 <= i < j < |c| ensures NotBothDefault()(c[i], c[j]) {
        assert NotBothDefault()(rows[i], rows[j]);
      }
    }
  }

  /** upsertAddress keeps "at most one default per user" and the key invariant. */
  lemma UpsertKeepsInvariant(rows: seq<Address>, nextId: int, userId: int, fields: AddressFields, isDefault: bool)
    requires TableInvariant(rows, nextId)
    ensures TableInvariant(Upserted(rows, nextId, userId, fields, isDefault), nextId + 1)
  {
    var before := if isDefault then ClearDefaults(rows, userId) else rows;
    var x := Address(nextId, userId, fields.fullName, fields.phone, fields.city,
                     fields.street, fields.postalCode, isDefault);
    ClearDefaultsKeepsInvariant(rows, nextId, userId);
    assert forall k :: 0 <= k < |before| ==> before[k] in before;
    PairwiseAppend(before, x, DistinctIds());
    PairwiseAppend(before, x, NotBothDefault());
  }

  /** setDefaultAddress on an address the caller does not own changes nothing
      (the handler answers 404). */
  lemma SetDefaultMissing(rows: seq<Address>, id: int, userId: int)
    requires forall k :: 0 <= k < |rows| ==> rows[k].id != id || rows[k].userId != userId
    ensures WithDefault(rows, id, userId) == rows
  {
  }

  /** After setDefaultAddress succeeds, the selected address is the caller's only
      default, no field other than isDefault changed, and other users' addresses are
      untouched. */
  lemma SetDefaultOnlyDefault(rows: seq<Address>, id: int, userId: int, i: nat)
    requires Pairwise(rows, DistinctIds())
    requires i < |rows| && rows[i].id == id && rows[i].userId == userId
    ensures var r := WithDefault(rows, id, userId);
      && |r| == |rows|
      && r[i] == rows[i].(isDefault := true)
      && (forall k :: 0 <= k < |rows| && k != i && r[k].userId == userId ==> !r[k].isDefault)
      && (forall k :: 0 <= k < |rows| ==> r[k] == rows[k].(isDefault := r[k].isDefault))
      && (forall k :: 0 <= k < |rows| && rows[k].userId != userId ==> r[k] == rows[k])
  {
    assert IsOwnedRow(id, userId)(rows[i]);
  }

  /** setDefaultAddress is idempotent. */
  lemma SetDefaultIdempotent(rows: seq<Address>, id: int, userId: int)
    ensures WithDefault(WithDefault(rows, id, userId), id, userId) == WithDefault(rows, id, userId)
  {
    var r := WithDefault(rows, id, userId);
    match FindFirst(rows, IsOwnedRow(id, userId))
    case None =>
    case Some(i) =>
      assert |r| == |rows|;
      FindFirstAgrees(rows, r, IsOwnedRow(id, userId));
      var c := ClearDefaults(r, userId);
      assert c[i := c[i].(isDefault := true)] == r;
  }

  /** setDefaultAddress keeps "at most one default per user" and the key invariant. */
  lemma SetDefaultKeepsInvariant(rows: seq<Address>, nextId: int, id: int, userId: int)
    requires TableInvariant(rows, nextId)
    ensures TableInvariant(WithDefault(rows, id, userId), nextId)
  {
    match FindFirst(rows, IsOwnedRow(id, userId))
    case None =>
    case Some(i) =>
      ClearDefaultsKeepsInvariant(rows, nextId, userId);
      var c := ClearDefaults(rows, userId);
      var x := c[i].(isDefault := true);
      assert forall k :: 0 <= k < |c| ==> c[k] in c;
      PairwiseUpdate(c, i, x, DistinctIds());
      PairwiseUpdate(c, i, x, NotBothDefault());
      assert c[i := x][i] in c[i := x];
  }

  /** setDefaultAddress as written. The bulk clear goes to the database, while the
      instance loaded before it still reads its old flag. Assigning `true` to a
      flag that already reads `true` marks no attribute as changed, and `save()`
      then writes nothing, so an address that was already the default stays cleared. */
  function WithDefaultAsWritten(rows: seq<Address>, id: int, userId: int): seq<Address>
  {
    match FindFirst(rows, IsOwnedRow(id, userId))
    case None => rows
    case Some(i) =>
      var cleared := ClearDefaults(rows, userId);
      if rows[i].isDefault then cleared else cleared[i := cleared[i].(isDefault := true)]
  }

  /** The code as written does what is intended unless the chosen address was
      already the default; then the caller is left with no default at all. */
  lemma SetDefaultAsWrittenLosesDefault(rows: seq<Address>, id: int, userId: int, i: nat)
    requires Pairwise(rows, DistinctIds())
    requires i < |rows| && rows[i].id == id && rows[i].userId == userId
    ensures !rows[i].isDefault ==> WithDefaultAsWritten(rows, id, userId) == WithDefault(rows, id, userId)
    ensures rows[i].isDefault ==>
      && WithDefaultAsWritten(rows, id, userId) == ClearDefaults(rows, userId)
      && (forall k :: 0 <= k < |rows| && rows[k].userId == userId ==> !WithDefaultAsWritten(rows, id, userId)[k].isDefault)
      && WithDefault(rows, id, userId)[i].isDefault
  {
    assert IsOwnedRow(id, userId)(rows[i]);
  }

  /** A concrete run of the code as written: choosing the current default twice
      first removes the user's default and then restores it. */
  lemma SetDefaultAsWrittenNotIdempotent()
    ensures var rows := [Address(5, 1, "Ana", "555", "Lyon", "Rue 1", None, true)];
      && WithDefaultAsWritten(rows, 5, 1) == [rows[0].(isDefault := false)]
      && WithDefaultAsWritten(WithDefaultAsWritten(rows, 5, 1), 5, 1) == rows
      && WithDefaultAsWritten(WithDefaultAsWritten(rows, 5, 1), 5, 1) != WithDefaultAsWritten(rows, 5, 1)
  {
    var rows := [Address(5, 1, "Ana", "555", "Lyon", "Rue 1", None, true)];
    assert IsOwnedRow(5, 1)(rows[0]);
    var once := WithDefaultAsWritten(rows, 5, 1);
    assert once == [rows[0].(isDefault := false)];
    assert IsOwnedRow(5, 1)(once[0]);
  }

  /** The Address table. */
  class AddressTable {
    var rows: seq<Address>
    var nextId: int

    ghost predicate Valid()
      reads this
    {
      TableInvariant(rows, nextId)
    }

    constructor ()
      ensures Valid() && rows == []
    {
      rows := [];
      nextId := 1;
    }

    /** getAddress: exactly the caller's addresses. */
    method GetAddress(caller: Caller) returns (reply: Reply<Address>)
      ensures reply.status == OK && reply.body.Items?
      ensures forall x :: x in reply.body.values <==> x in rows && x.userId == caller.id
      ensures reply.body.values == Filter(rows, OfUser(caller.id))
    {
      reply := Reply(OK, Items(Filter(rows, OfUser(caller.id))));
    }

    /** upsertAddress: `isDefault` defaults to false; when it is true the caller's
        defaults are cleared; then the address is always inserted, with status 200. */
    method UpsertAddress(caller: Caller, fields: AddressFields, isDefault: Option<bool>) returns (reply: Reply<Address>)
      requires Valid()
      modifies this
      ensures Valid() && nextId == old(nextId) + 1
      ensures rows == Upserted(old(rows), old(nextId), caller.id, fields, isDefault.GetOr(false))
      ensures reply.status == OK && reply.body.Saved? && reply.body.text == "Address saved" && reply.body.value == rows[|rows| - 1]
      ensures reply.body.value.userId == caller.id && reply.body.value.isDefault == isDefault.GetOr(false)
    {
      var makeDefault := isDefault.GetOr(false);
      UpsertKeepsInvariant(rows, nextId, caller.id, fields, makeDefault);
      if makeDefault {
        rows := ClearDefaults(rows, caller.id);
      }
      var address := Address(nextId, caller.id, fields.fullName, fields.phone, fields.city,
                             fields.street, fields.postalCode, makeDefault);
      rows := rows + [address];
      nextId := nextId + 1;
      reply := Reply(OK, Saved("Address saved", address));
    }

    /** setDefaultAddress: 404 unless the caller owns address `id`; otherwise clears
        the caller's defaults and flags that address. */
    method SetDefaultAddress(caller: Caller, id: int) returns (reply: Reply<Address>)
      requires Valid()
      modifies this
      ensures Valid() && nextId == old(nextId)
      ensures rows == WithDefault(old(rows), id, caller.id)
      ensures FindFirst(old(rows), IsOwnedRow(id, caller.id)).None? ==>
                reply == Reply(NotFound, Message("Address not found"))
      ensures FindFirst(old(rows), IsOwnedRow(id, caller.id)).Some? ==>
                reply.status == OK && reply.body.Saved? && reply.body.text == "Default address updated" && reply.body.value in rows &&
                reply.body.value.id == id && reply.body.value.isDefault
    {
      SetDefaultKeepsInvariant(rows, nextId, id, caller.id);
      var found := FindFirst(rows, IsOwnedRow(id, caller.id));
      if found.None? {
        return Reply(NotFound, Message("Address not found"));
      }
      var i := found.value;
      rows := ClearDefaults(rows, caller.id);
      var address := rows[i].(isDefault := true);
      rows := rows[i := address];
      assert rows[i] == address;
      reply := Reply(OK, Saved("Default address updated", address));
    }
  }
}
