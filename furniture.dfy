/** The Furniture resource (controllers/furnitureController.js over the collection of
    models/Furniture.js): listings start pending unless an admin creates them, the
    public queries see approved listings only, an admin approves or declines (which
    deletes), and only the owner or an admin may update or delete. */
module FurnitureController {
  import opened Common
  import opened Seqs

  /** The `condition` enum of the schema. */
  datatype ItemCondition = New | Used | Damaged

  /** The `status` enum of the schema; new listings are Available. */
  datatype ItemStatus = Available | Sold | Blocked

  /** A document of the Furniture collection. `approved` defaults to false and `sale` to null. */
  datatype Furniture = Furniture(id: int, title: string, description: string, price: Number,
                                 category: int, condition: ItemCondition, location: string,
                                 images: seq<string>, status: ItemStatus, owner: int,
                                 approved: bool, sale: Option<int>)

  /** The fields of a createFurniture request body. */
  datatype FurnitureFields = FurnitureFields(title: string, description: string, price: Number,
                                             category: int, condition: ItemCondition, location: string)

  /** An updateFurniture request body: any key may be present, including ones the
      handler must not let through. */
  datatype FurnitureBody = FurnitureBody(title: Option<string>, description: Option<string>,
                                         price: Option<Number>, category: Option<int>,
                                         condition: Option<ItemCondition>, location: Option<string>,
                                         status: Option<ItemStatus>, owner: Option<int>,
                                         approved: Option<bool>, sale: Option<Option<int>>)

  /** The document fields a request body can name. */
  datatype FieldName = Title | Description | Price | Category | Condition | Location | Status
                     | Owner | Approved | SaleRef

  /** The whitelist of updateFurniture, in its order. */
  const UpdatableFields: seq<FieldName> := [Title, Description, Price, Category, Condition, Location, Status]

  /** `if (req.body[field] !== undefined) furniture[field] = req.body[field]` for one field. */
  function SetField(item: Furniture, f: FieldName, body: FurnitureBody): Furniture
  {
    match f
    case Title => if body.title.Some? then item.(title := body.title.value) else item
    case Description => if body.description.Some? then item.(description := body.description.value) else item
    case Price => if body.price.Some? then item.(price := body.price.value) else item
    case Category => if body.category.Some? then item.(category := body.category.value) else item
    case Condition => if body.condition.Some? then item.(condition := body.condition.value) else item
    case Location => if body.location.Some? then item.(location := body.location.value) else item
    case Status => if body.status.Some? then item.(status := body.status.value) else item
    case Owner => if body.owner.Some? then item.(owner := body.owner.value) else item
    case Approved => if body.approved.Some? then item.(approved := body.approved.value) else item
    case SaleRef => if body.sale.Some? then item.(sale := body.sale.value) else item
  }

  /** The `forEach` over the field names `fs`, in order. */
  function ApplyFields(item: Furniture, fs: seq<FieldName>, body: FurnitureBody): Furniture
  {
    if fs == [] then item
    else SetField(ApplyFields(item, fs[..|fs| - 1], body), fs[|fs| - 1], body)
  }

  /** The reference definition of a partial update: a field takes the body's value
      exactly when it is in `names` and present in the body. */
  function Patched(item: Furniture, names: set<FieldName>, body: FurnitureBody): Furniture
  {
    Furniture(item.id,
      if Title in names && body.title.Some? then body.title.value else item.title,
      if Description in names && body.description.Some? then body.description.value else item.description,
      if Price in names && body.price.Some? then body.price.value else item.price,
      if Category in names && body.category.Some? then body.category.value else item.category,
      if Condition in names && body.condition.Some? then body.condition.value else item.condition,
      if Location in names && body.location.Some? then body.location.value else item.location,
      item.images,
      if Status in names && body.status.Some? then body.status.value else item.status,
      if Owner in names && body.owner.Some? then body.owner.value else item.owner,
      if Approved in names && body.approved.Some? then body.approved.value else item.approved,
      if SaleRef in names && body.sale.Some? then body.sale.value else item.sale)
  }

  lemma SetFieldPatched(item: Furniture, names: set<FieldName>, f: FieldName, body: FurnitureBody)
    ensures SetField(Patched(item, names, body), f, body) == Patched(item, names + {f}, body)
  {
    match f
    case Title =>
    case Description =>
    case Price =>
    case Category =>
    case Condition =>
    case Location =>
    case Status =>
    case Owner =>
    case Approved =>
    case SaleRef =>
  }

  /** Applying the fields one after another, in any order, is the reference partial update. */
  lemma {:induction false} ApplyFieldsIsPatched(item: Furniture, fs: seq<FieldName>, body: FurnitureBody)
    ensures ApplyFields(item, fs, body) == Patched(item, (set f | f in fs), body)
  {
    if fs == [] {
      assert (set f | f in fs) == {};
      assert Patched(item, {}, body) == item;
    } else {
      var init, last := fs[..|fs| - 1], fs[|fs| - 1];
      ApplyFieldsIsPatched(item, init, body);
      assert fs == init + [last];
      assert (set f | f in fs) == (set f | f in init) + {last};
      SetFieldPatched(item, (set f | f in init), last, body);
    }
  }

  /** The document after updateFurniture's assignments: the whitelisted fields
      present in the body, then the images when new files were uploaded. */
  function UpdatedItem(item: Furniture, body: FurnitureBody, files: Option<seq<string>>): Furniture
  {
    var patched := ApplyFields(item, UpdatableFields, body);
    if files.Some? && |files.value| > 0 then patched.(images := files.value) else patched
  }

  /** updateFurniture overwrites only the whitelisted fields present in the body;
      key, owner, approval and sale are never changed, whatever the body holds; the
      images are replaced only when the new file list is non-empty. */
  lemma UpdatedItemFields(item: Furniture, body: FurnitureBody, files: Option<seq<string>>)
    ensures var r := UpdatedItem(item, body, files);
      && r.id == item.id && r.owner == item.owner && r.approved == item.approved && r.sale == item.sale
      && r.title == body.title.GetOr(item.title)
      && r.description == body.description.GetOr(item.description)
      && r.price == body.price.GetOr(item.price)
      && r.category == body.category.GetOr(item.category)
      && r.condition == body.condition.GetOr(item.condition)
      && r.location == body.location.GetOr(item.location)
      && r.status == body.status.GetOr(item.status)
      && r.images == if files.Some? && |files.value| > 0 then files.value else item.images
  {
    ApplyFieldsIsPatched(item, UpdatableFields, body);
    assert (set f | f in UpdatableFields) == {Title, Description, Price, Category, Condition, Location, Status};
  }

  /** Only the owner or an admin may update or delete a listing. */
  predicate MayModify(item: Furniture, caller: Caller)
  {
    item.owner == caller.id || caller.role == Admin
  }

  function HasId(id: int): Furniture -> bool
  {
    (x: Furniture) => x.id == id
  }

  /** getFurnitureById's query: `{ _id: id, approved: true }` */
  function IsVisible(id: int): Furniture -> bool
  {
    (x: Furniture) => x.id == id && x.approved
  }

  function IsApproved(): Furniture -> bool
  {
    (x: Furniture) => x.approved
  }

  function IsPending(): Furniture -> bool
  {
    (x: Furniture) => !x.approved
  }

  function DistinctIds(): (Furniture, Furniture) -> bool
  {
    (a: Furniture, b: Furniture) => a.id != b.id
  }

  ghost predicate KeysValid(items: seq<Furniture>, nextId: int)
  {
    Pairwise(items, DistinctIds()) && forall x :: x in items ==> x.id < nextId
  }

  /** The listing a createFurniture request stores: owned by the caller, approved
      exactly when the caller is an admin, Available, with no sale. */
  function NewListing(id: int, caller: Caller, f: FurnitureFields, images: seq<string>): Furniture
  {
    Furniture(id, f.title, f.description, f.price, f.category, f.condition, f.location,
              images, Available, caller.id, caller.role == Admin, None)
  }

  /** The collection after createFurniture: unchanged without uploaded images. */
  function CreatedFurniture(items: seq<Furniture>, nextId: int, caller: Caller, f: FurnitureFields,
                            files: Option<seq<string>>): seq<Furniture>
  {
    if files.None? || |files.value| == 0 then items
    else items + [NewListing(nextId, caller, f, files.value)]
  }

  function ApprovedFurniture(items: seq<Furniture>, id: int): seq<Furniture>
  {
    match FindFirst(items, HasId(id))
    case None => items
    case Some(i) => items[i := items[i].(approved := true)]
  }

  function DeclinedFurniture(items: seq<Furniture>, id: int): seq<Furniture>
  {
    match FindFirst(items, HasId(id))
    case None => items
    case Some(i) => items[..i] + items[i + 1..]
  }

  function UpdatedFurniture(items: seq<Furniture>, id: int, caller: Caller, body: FurnitureBody,
                            files: Option<seq<string>>): seq<Furniture>
  {
    match FindFirst(items, HasId(id))
    case None => items
    case Some(i) => if MayModify(items[i], caller) then items[i := UpdatedItem(items[i], body, files)] else items
  }

  function DeletedFurniture(items: seq<Furniture>, id: int, caller: Caller): seq<Furniture>
  {
    match FindFirst(items, HasId(id))
    case None => items
    case Some(i) => if MayModify(items[i], caller) then items[..i] + items[i + 1..] else items
  }

  /** createFurniture without uploaded images stores nothing; with images it stores
      exactly one listing, owned by the caller and approved iff the caller is an admin. */
  lemma CreateFurnitureCases(items: seq<Furniture>, nextId: int, caller: Caller, f: FurnitureFields,
                             files: Option<seq<string>>)
    ensures files.None? || files.value == [] ==> CreatedFurniture(items, nextId, caller, f, files) == items
    ensures files.Some? && files.value != [] ==>
      var r := CreatedFurniture(items, nextId, caller, f, files);
      && |r| == |items| + 1 && r[..|items|] == items
      && r[|items|].owner == caller.id
      && (r[|items|].approved <==> caller.role == Admin)
      && r[|items|].images == files.value && r[|items|].sale == None && r[|items|].status == Available
  {
  }

  /** The public list and the admin's pending list partition the collection, which
      the admin's full list returns whole. */
  lemma ListingsPartition(items: seq<Furniture>)
    ensures multiset(Filter(items, IsApproved())) + multiset(Filter(items, IsPending())) == multiset(items)
    ensures forall x :: x in Filter(items, IsApproved()) <==> x in items && x.approved
    ensures forall x :: x in Filter(items, IsPending()) <==> x in items && !x.approved
  {
    forall x ensures (multiset(Filter(items, IsApproved())) + multiset(Filter(items, IsPending())))[x] == multiset(items)[x] {
      FilterCount(items, IsApproved(), x);
      FilterCount(items, IsPending(), x);
    }
  }

  /** getFurnitureById answers 404 for a listing that exists but is not approved. */
  lemma GetByIdHidesPending(items: seq<Furniture>, id: int, i: nat)
    requires Pairwise(items, DistinctIds())
    requires i < |items| && items[i].id == id && !items[i].approved
    ensures FindFirst(items, IsVisible(id)).None?
  {
    forall k | 0 <= k < |items| ensures !IsVisible(id)(items[k]) {
      if k != i {
        assert DistinctIds()(items[k], items[i]) || DistinctIds()(items[i], items[k]);
      }
    }
  }

  /** approveFurniture: no change for a missing key (404); otherwise it sets
      `approved` and changes nothing else, and approving twice is approving once. */
  lemma ApproveFurnitureSetsFlag(items: seq<Furniture>, id: int, i: nat)
    requires Pairwise(items, DistinctIds())
    ensures (forall k :: 0 <= k < |items| ==> items[k].id != id) ==> ApprovedFurniture(items, id) == items
    ensures i < |items| && items[i].id == id ==> ApprovedFurniture(items, id) == items[i := items[i].(approved := true)]
    ensures ApprovedFurniture(ApprovedFurniture(items, id), id) == ApprovedFurniture(items, id)
  {
    if i < |items| && items[i].id == id {
      assert HasId(id)(items[i]);
    }
    var r := ApprovedFurniture(items, id);
    FindFirstAgrees(items, r, HasId(id));
  }

  /** declineFurniture removes the listing whatever its approval state, or changes nothing (404). */
  lemma DeclineFurnitureRemoves(items: seq<Furniture>, id: int, i: nat)
    requires Pairwise(items, DistinctIds())
    ensures (forall k :: 0 <= k < |items| ==> items[k].id != id) ==> DeclinedFurniture(items, id) == items
    ensures i < |items| && items[i].id == id ==> DeclinedFurniture(items, id) == items[..i] + items[i + 1..]
  {
    if i < |items| && items[i].id == id {
      assert HasId(id)(items[i]);
    }
  }

  /** updateFurniture and deleteFurniture change nothing unless the caller is the
      listing's owner or an admin. */
  lemma ModifyRequiresOwnerOrAdmin(items: seq<Furniture>, id: int, caller: Caller, body: FurnitureBody,
                                   files: Option<seq<string>>, i: nat)
    requires Pairwise(items, DistinctIds())
    requires i < |items| && items[i].id == id
    requires items[i].owner != caller.id && caller.role != Admin
    ensures UpdatedFurniture(items, id, caller, body, files) == items
    ensures DeletedFurniture(items, id, caller) == items
  {
    assert HasId(id)(items[i]);
  }

  /** An authorised updateFurniture rewrites that listing only; an authorised
      deleteFurniture removes it from the collection (a hard delete). */
  lemma ModifyByOwnerOrAdmin(items: seq<Furniture>, id: int, caller: Caller, body: FurnitureBody,
                             files: Option<seq<string>>, i: nat)
    requires Pairwise(items, DistinctIds())
    requires i < |items| && items[i].id == id && MayModify(items[i], caller)
    ensures UpdatedFurniture(items, id, caller, body, files) == items[i := UpdatedItem(items[i], body, files)]
    ensures DeletedFurniture(items, id, caller) == items[..i] + items[i + 1..]
  {
    assert HasId(id)(items[i]);
  }

  /** The Furniture collection. */
  class FurnitureCollection {
    var items: seq<Furniture>
    var nextId: int

    ghost predicate Valid()
      reads this
    {
      KeysValid(items, nextId)
    }

    constructor ()
      ensures Valid() && items == []
    {
      items := [];
      nextId := 1;
    }

    /** createFurniture: 400 without uploaded images, otherwise 201 with the new listing. */
    method CreateFurniture(caller: Caller, f: FurnitureFields, files: Option<seq<string>>) returns (reply: Reply<Furniture>)
      requires Valid()
      modifies this
      ensures Valid()
      ensures items == CreatedFurniture(old(items), old(nextId), caller, f, files)
      ensures files.None? || files.value == [] ==>
                nextId == old(nextId) && reply == Reply(BadRequest, Message("At least one image is required"))
      ensures files.Some? && files.value != [] ==>
                nextId == old(nextId) + 1 && reply == Reply(Created, Saved("Furniture uploaded", NewListing(old(nextId), caller, f, files.value)))
    {
      if files.None? || |files.value| == 0 {
        return Reply(BadRequest, Message("At least one image is required"));
      }
      var listing := NewListing(nextId, caller, f, files.value);
      PairwiseAppend(items, listing, DistinctIds());
      items := items + [listing];
      nextId := nextId + 1;
      reply := Reply(Created, Saved("Furniture uploaded", listing));
    }

    /** getFurniture: exactly the approved listings. */
    method GetFurniture() returns (reply: Reply<Furniture>)
      ensures reply.status == OK && reply.body.Items?
      ensures forall x :: x in reply.body.values <==> x in items && x.approved
      ensures reply.body.values == Filter(items, IsApproved())
    {
      reply := Reply(OK, Items(Filter(items, IsApproved())));
    }

    /** getUnapprovedFurniture: exactly the pending listings. */
    method GetUnapprovedFurniture() returns (reply: Reply<Furniture>)
      ensures reply.status == OK && reply.body.Items?
      ensures forall x :: x in reply.body.values <==> x in items && !x.approved
      ensures reply.body.values == Filter(items, IsPending())
    {
      reply := Reply(OK, Items(Filter(items, IsPending())));
    }

    /** getAllFurniture: every listing. */
    method GetAllFurniture() returns (reply: Reply<Furniture>)
      ensures reply == Reply(OK, Items(items))
    {
      reply := Reply(OK, Items(items));
    }

    /** getFurnitureById: 404 unless the listing exists and is approved. */
    method GetFurnitureById(id: int) returns (reply: Reply<Furniture>)
      ensures (forall x :: x in items ==> x.id != id || !x.approved) ==>
                reply == Reply(NotFound, Message("Furniture not found or not approved"))
      ensures reply.status == OK ==>
                reply.body.Item? && reply.body.value in items && reply.body.value.id == id && reply.body.value.approved
      ensures reply.status == OK || reply == Reply(NotFound, Message("Furniture not found or not approved"))
      ensures reply.status == OK <==> exists x :: x in items && x.id == id && x.approved
      ensures reply == match FindFirst(items, IsVisible(id))
                       case Some(i) => Reply(OK, Item(items[i]))
                       case None => Reply(NotFound, Message("Furniture not found or not approved"))
    {
      var found := FindFirst(items, IsVisible(id));
      if found.None? {
        return Reply(NotFound, Message("Furniture not found or not approved"));
      }
      reply := Reply(OK, Item(items[found.value]));
    }

    /** approveFurniture: 404 for a missing key, otherwise sets `approved`. */
    method ApproveFurniture(id: int) returns (reply: Reply<Furniture>)
      requires Valid()
      modifies this
      ensures Valid() && nextId == old(nextId)
      ensures items == ApprovedFurniture(old(items), id)
      ensures FindFirst(old(items), HasId(id)).None? ==> reply == Reply(NotFound, Message("Furniture not found"))
      ensures FindFirst(old(items), HasId(id)).Some? ==>
                reply.status == OK && reply.body.Saved? && reply.body.text == "Furniture approved" &&
                reply.body.value in items && reply.body.value.id == id && reply.body.value.approved
    {
      var found := FindFirst(items, HasId(id));
      if found.None? {
        return Reply(NotFound, Message("Furniture not found"));
      }
      var i := found.value;
      var listing := items[i].(approved := true);
      assert forall k :: 0 <= k < |items| ==> items[k] in items;
      PairwiseUpdate(items, i, listing, DistinctIds());
      items := items[i := listing];
      assert items[i] == listing;
      reply := Reply(OK, Saved("Furniture approved", listing));
    }

    /** declineFurniture: 404 for a missing key, otherwise deletes the listing. */
    method DeclineFurniture(id: int) returns (reply: Reply<Furniture>)
      requires Valid()
      modifies this
      ensures Valid() && nextId == old(nextId)
      ensures items == DeclinedFurniture(old(items), id)
      ensures reply == if FindFirst(old(items), HasId(id)).None?
                       then Reply(NotFound, Message("Furniture not found"))
                       else Reply(OK, Message("Furniture declined and removed"))
    {
      var found := FindFirst(items, HasId(id));
      if found.None? {
        return Reply(NotFound, Message("Furniture not found"));
      }
      var i := found.value;
      PairwiseRemove(items, i, DistinctIds());
      items := items[..i] + items[i + 1..];
      reply := Reply(OK, Message("Furniture declined and removed"));
    }

    /** updateFurniture: 404 for a missing key, then 403 unless the caller is the
        owner or an admin, then the whitelisted fields of the body, one by one, and
        the images when files were uploaded. */
    method UpdateFurniture(caller: Caller, id: int, body: FurnitureBody, files: Option<seq<string>>)
      returns (reply: Reply<Furniture>)
      requires Valid()
      modifies this
      ensures Valid() && nextId == old(nextId)
      ensures items == UpdatedFurniture(old(items), id, caller, body, files)
      ensures FindFirst(old(items), HasId(id)).None? ==> reply == Reply(NotFound, Message("Furniture not found"))
      ensures FindFirst(old(items), HasId(id)).Some? && !MayModify(old(items)[FindFirst(old(items), HasId(id)).value], caller) ==>
                reply == Reply(Forbidden, Message("Not authorized"))
      ensures FindFirst(old(items), HasId(id)).Some? && MayModify(old(items)[FindFirst(old(items), HasId(id)).value], caller) ==>
                reply.status == OK && reply.body.Saved? && reply.body.text == "Furniture updated" &&
                reply.body.value in items && reply.body.value.id == id
    {
      var found := FindFirst(items, HasId(id));
      if found.None? {
        return Reply(NotFound, Message("Furniture not found"));
      }
      var i := found.value;
      if !MayModify(items[i], caller) {
        return Reply(Forbidden, Message("Not authorized"));
      }
      var listing := items[i];
      var k := 0;
      while k < |UpdatableFields|
        invariant 0 <= k <= |UpdatableFields|
        invariant listing == ApplyFields(items[i], UpdatableFields[..k], body)
      {
        assert UpdatableFields[..k + 1][..k] == UpdatableFields[..k];
        listing := SetField(listing, UpdatableFields[k], body);
        k := k + 1;
      }
      assert UpdatableFields[..k] == UpdatableFields;
      if files.Some? && |files.value| > 0 {
        listing := listing.(images := files.value);
      }
      assert listing.id == id by {
        UpdatedItemFields(items[i], body, files);
      }
      assert forall j :: 0 <= j < |items| ==> items[j] in items;
      PairwiseUpdate(items, i, listing, DistinctIds());
      items := items[i := listing];
      assert items[i] == listing;
      reply := Reply(OK, Saved("Furniture updated", listing));
    }

    /** deleteFurniture: 404 for a missing key, then 403 unless the caller is the
        owner or an admin, then the listing is deleted. */
    method DeleteFurniture(caller: Caller, id: int) returns (reply: Reply<Furniture>)
      requires Valid()
      modifies this
      ensures Valid() && nextId == old(nextId)
      ensures items == DeletedFurniture(old(items), id, caller)
      ensures FindFirst(old(items), HasId(id)).None? ==> reply == Reply(NotFound, Message("Furniture not found"))
      ensures FindFirst(old(items), HasId(id)).Some? ==>
                reply == if MayModify(old(items)[FindFirst(old(items), HasId(id)).value], caller)
                         then Reply(OK, Message("Furniture deleted"))
                         else Reply(Forbidden, Message("Not authorized"))
    {
      var found := FindFirst(items, HasId(id));
      if found.None? {
        return Reply(NotFound, Message("Furniture not found"));
      }
      var i := found.value;
      if !MayModify(items[i], caller) {
        return Reply(Forbidden, Message("Not authorized"));
      }
      PairwiseRemove(items, i, DistinctIds());
      items := items[..i] + items[i + 1..];
      reply := Reply(OK, Message("Furniture deleted"));
    }
  }
}
