/** The Sale resource (controllers/saleController.js over the collection of
    models/Sale.js): creation is refused when a sale of the same name has an
    intersecting closed time interval; update and delete go by key. */
module SaleController {
  import opened Common
  import opened Seqs

  /** A document of the Sale collection; times are integer timestamps. */
  datatype Sale = Sale(id: int, name: string, description: Option<string>, discount: Number,
                       startTime: int, endTime: int, createdBy: int)

  /** The fields of an addSale request body. */
  datatype SaleFields = SaleFields(name: string, description: Option<string>, discount: Number,
                                   startTime: int, endTime: int)

  /** The fields of an updateSale request body; an absent field is left as it is. */
  datatype SalePatch = SalePatch(name: Option<string>, description: Option<string>, discount: Option<Number>,
                                 startTime: Option<int>, endTime: Option<int>)

  /** The conflict query of addSale: same name, and
      `existing.startTime <= endTime && existing.endTime >= startTime`. */
  function Blocks(name: string, startTime: int, endTime: int): Sale -> bool
  {
    (s: Sale) => s.name == name && s.startTime <= endTime && s.endTime >= startTime
  }

  /** `findById(id)` */
  function HasId(id: int): Sale -> bool
  {
    (s: Sale) => s.id == id
  }

  function DistinctIds(): (Sale, Sale) -> bool
  {
    (a: Sale, b: Sale) => a.id != b.id
  }

  /** Two sales do not clash: different names, or disjoint closed intervals. */
  function NoClash(): (Sale, Sale) -> bool
  {
    (a: Sale, b: Sale) => a.name != b.name || !(a.startTime <= b.endTime && a.endTime >= b.startTime)
  }

  /** "No two sales with the same name have intersecting intervals." */
  ghost predicate NoSameNameOverlap(sales: seq<Sale>)
  {
    Pairwise(sales, NoClash())
  }

  ghost predicate KeysValid(sales: seq<Sale>, nextId: int)
  {
    Pairwise(sales, DistinctIds()) && forall s :: s in sales ==> s.id < nextId
  }

  /** The collection after addSale: unchanged when a same-named sale intersects,
      otherwise one new sale created by the caller. */
  function AddedSale(sales: seq<Sale>, nextId: int, f: SaleFields, createdBy: int): seq<Sale>
  {
    if FindFirst(sales, Blocks(f.name, f.startTime, f.endTime)).Some? then sales
    else sales + [Sale(nextId, f.name, f.description, f.discount, f.startTime, f.endTime, createdBy)]
  }

  /** `findByIdAndUpdate(id, { name, description, discount, startTime, endTime })`:
      the fields present in the body overwrite, the absent ones are left alone. */
  function Patched(s: Sale, p: SalePatch): Sale
  {
    s.(name := p.name.GetOr(s.name),
       description := if p.description.Some? then p.description else s.description,
       discount := p.discount.GetOr(s.discount),
       startTime := p.startTime.GetOr(s.startTime),
       endTime := p.endTime.GetOr(s.endTime))
  }

  /** The collection after updateSale; no overlap check is made. */
  function UpdatedSale(sales: seq<Sale>, id: int, p: SalePatch): seq<Sale>
  {
    match FindFirst(sales, HasId(id))
    case None => sales
    case Some(i) => sales[i := Patched(sales[i], p)]
  }

  /** The collection after deleteSale. */
  function DeletedSale(sales: seq<Sale>, id: int): seq<Sale>
  {
    match FindFirst(sales, HasId(id))
    case None => sales
    case Some(i) => sales[..i] + sales[i + 1..]
  }

  /** addSale leaves the collection unchanged when an existing sale has the same
      name and satisfies `existing.start <= new.end && existing.end >= new.start`. */
  lemma AddSaleRejectsClash(sales: seq<Sale>, nextId: int, f: SaleFields, createdBy: int, k: nat)
    requires k < |sales| && sales[k].name == f.name
    requires sales[k].startTime <= f.endTime && sales[k].endTime >= f.startTime
    ensures AddedSale(sales, nextId, f, createdBy) == sales
  {
    assert Blocks(f.name, f.startTime, f.endTime)(sales[k]);
  }

  /** The intervals are closed: a same-named sale that only touches an endpoint of
      an existing one, on either side, is refused. */
  lemma AddSaleTouchingEndpointRejected(sales: seq<Sale>, nextId: int, f: SaleFields, createdBy: int, k: nat)
    requires k < |sales| && sales[k].name == f.name
    requires sales[k].startTime <= sales[k].endTime && f.startTime <= f.endTime
    requires f.startTime == sales[k].endTime || f.endTime == sales[k].startTime
    ensures AddedSale(sales, nextId, f, createdBy) == sales
  {
    AddSaleRejectsClash(sales, nextId, f, createdBy, k);
  }

  /** Sales of different names never block each other, whatever their intervals;
      a new sale that no same-named sale intersects is appended as given, created by the caller. */
  lemma AddSaleAppendsWhenFree(sales: seq<Sale>, nextId: int, f: SaleFields, createdBy: int)
    requires forall k :: 0 <= k < |sales| && sales[k].name == f.name ==>
               sales[k].startTime > f.endTime || sales[k].endTime < f.startTime
    ensures AddedSale(sales, nextId, f, createdBy)
         == sales + [Sale(nextId, f.name, f.description, f.discount, f.startTime, f.endTime, createdBy)]
  {
  }

  /** addSale preserves "no two same-named sales overlap". */
  lemma AddSaleKeepsNoOverlap(sales: seq<Sale>, nextId: int, f: SaleFields, createdBy: int)
    requires NoSameNameOverlap(sales)
    ensures NoSameNameOverlap(AddedSale(sales, nextId, f, createdBy))
  {
    if FindFirst(sales, Blocks(f.name, f.startTime, f.endTime)).None? {
      var x := Sale(nextId, f.name, f.description, f.discount, f.startTime, f.endTime, createdBy);
      forall k | 0 <= k < |sales| ensures NoClash()(sales[k], x) {
        assert !Blocks(f.name, f.startTime, f.endTime)(sales[k]);
      }
      PairwiseAppend(sales, x, NoClash());
    }
  }

  /** deleteSale preserves "no two same-named sales overlap". */
  lemma DeleteSaleKeepsNoOverlap(sales: seq<Sale>, id: int)
    requires NoSameNameOverlap(sales)
    ensures NoSameNameOverlap(DeletedSale(sales, id))
  {
    match FindFirst(sales, HasId(id))
    case None =>
    case Some(i) => PairwiseRemove(sales, i, NoClash());
  }

  /** updateSale makes no overlap check, so it can break the rule: renaming one of
      two overlapping sales to the other's name is accepted. */
  lemma UpdateSaleMayBreakNoOverlap()
    ensures var sales := [Sale(1, "Winter", None, 10.0, 0, 10, 7), Sale(2, "Spring", None, 20.0, 5, 15, 7)];
            var patch := SalePatch(Some("Winter"), None, None, None, None);
            NoSameNameOverlap(sales) && !NoSameNameOverlap(UpdatedSale(sales, 2, patch))
  {
    var sales := [Sale(1, "Winter", None, 10.0, 0, 10, 7), Sale(2, "Spring", None, 20.0, 5, 15, 7)];
    var patch := SalePatch(Some("Winter"), None, None, None, None);
    assert !HasId(2)(sales[0]) && HasId(2)(sales[1]);
    var r := UpdatedSale(sales, 2, patch);
    assert r[1].name == "Winter";
    assert !NoClash()(r[0], r[1]);
  }

  /** updateSale on an absent key changes nothing (404); otherwise only that sale
      changes: the fields present in the body are overwritten, and its key and
      creator are kept. */
  lemma UpdateSaleOnlyThatSale(sales: seq<Sale>, id: int, p: SalePatch, i: nat)
    requires Pairwise(sales, DistinctIds())
    ensures (forall k :: 0 <= k < |sales| ==> sales[k].id != id) ==> UpdatedSale(sales, id, p) == sales
    ensures i < |sales| && sales[i].id == id ==>
      var r := UpdatedSale(sales, id, p);
      && |r| == |sales|
      && (forall k :: 0 <= k < |sales| && k != i ==> r[k] == sales[k])
      && r[i].id == id && r[i].createdBy == sales[i].createdBy
      && (p.name.Some? ==> r[i].name == p.name.value) && (p.name.None? ==> r[i].name == sales[i].name)
      && (p.startTime.Some? ==> r[i].startTime == p.startTime.value)
      && (p.startTime.None? ==> r[i].startTime == sales[i].startTime)
      && (p.endTime.Some? ==> r[i].endTime == p.endTime.value)
      && (p.endTime.None? ==> r[i].endTime == sales[i].endTime)
      && (p.discount.Some? ==> r[i].discount == p.discount.value)
      && (p.discount.None? ==> r[i].discount == sales[i].discount)
      && (p.description.Some? ==> r[i].description == p.description)
      && (p.description.None? ==> r[i].description == sales[i].description)
  {
    if i < |sales| && sales[i].id == id {
      assert HasId(id)(sales[i]);
    }
  }

  /** deleteSale on an absent key changes nothing (404); otherwise it removes exactly that sale. */
  lemma DeleteSaleRemovesExactly(sales: seq<Sale>, id: int, i: nat)
    requires Pairwise(sales, DistinctIds())
    ensures (forall k :: 0 <= k < |sales| ==> sales[k].id != id) ==> DeletedSale(sales, id) == sales
    ensures i < |sales| && sales[i].id == id ==> DeletedSale(sales, id) == sales[..i] + sales[i + 1..]
  {
    if i < |sales| && sales[i].id == id {
      assert HasId(id)(sales[i]);
    }
  }

  /** The Sale collection. */
  class SaleCollection {
    var sales: seq<Sale>
    var nextId: int

    ghost predicate Valid()
      reads this
    {
      KeysValid(sales, nextId)
    }

    constructor ()
      ensures Valid() && sales == []
    {
      sales := [];
      nextId := 1;
    }

    /** addSale: 400 when a same-named sale intersects, otherwise 201 with the new
        sale, whose creator is the caller. */
    method AddSale(caller: Caller, f: SaleFields) returns (reply: Reply<Sale>)
      requires Valid()
      modifies this
      ensures Valid()
      ensures sales == AddedSale(old(sales), old(nextId), f, caller.id)
      ensures old(NoSameNameOverlap(sales)) ==> NoSameNameOverlap(sales)
      ensures FindFirst(old(sales), Blocks(f.name, f.startTime, f.endTime)).Some? ==>
                nextId == old(nextId) &&
                reply == Reply(BadRequest, Message("A sale with the same name or overlapping time range already exists."))
      ensures FindFirst(old(sales), Blocks(f.name, f.startTime, f.endTime)).None? ==>
                nextId == old(nextId) + 1 &&
                reply == Reply(Created, Saved("Sale created successfully", Sale(old(nextId), f.name, f.description, f.discount, f.startTime, f.endTime, caller.id)))
    {
      if NoSameNameOverlap(sales) {
        AddSaleKeepsNoOverlap(sales, nextId, f, caller.id);
      }
      var existing := FindFirst(sales, Blocks(f.name, f.startTime, f.endTime));
      if existing.Some? {
        return Reply(BadRequest, Message("A sale with the same name or overlapping time range already exists."));
      }
      var sale := Sale(nextId, f.name, f.description, f.discount, f.startTime, f.endTime, caller.id);
      PairwiseAppend(sales, sale, DistinctIds());
      sales := sales + [sale];
      nextId := nextId + 1;
      reply := Reply(Created, Saved("Sale created successfully", sale));
    }

    /** getSales: every sale. */
    method GetSales() returns (reply: Reply<Sale>)
      ensures reply == Reply(OK, Items(sales))
    {
      reply := Reply(OK, Items(sales));
    }

    /** updateSale: 404 for an absent key, otherwise 200 with the patched sale. */
    method UpdateSale(id: int, p: SalePatch) returns (reply: Reply<Sale>)
      requires Valid()
      modifies this
      ensures Valid() && nextId == old(nextId)
      ensures sales == UpdatedSale(old(sales), id, p)
      ensures FindFirst(old(sales), HasId(id)).None? ==> reply == Reply(NotFound, Message("Sale not found"))
      ensures FindFirst(old(sales), HasId(id)).Some? ==>
                reply.status == OK && reply.body.Saved? && reply.body.text == "Sale updated successfully" && reply.body.value in sales && reply.body.value.id == id
    {
      var found := FindFirst(sales, HasId(id));
      if found.None? {
        return Reply(NotFound, Message("Sale not found"));
      }
      var i := found.value;
      var sale := Patched(sales[i], p);
      assert forall k :: 0 <= k < |sales| ==> sales[k] in sales;
      PairwiseUpdate(sales, i, sale, DistinctIds());
      sales := sales[i := sale];
      assert sales[i] == sale;
      reply := Reply(OK, Saved("Sale updated successfully", sale));
    }

    /** deleteSale: 404 for an absent key, otherwise removes that sale. */
    method DeleteSale(id: int) returns (reply: Reply<Sale>)
      requires Valid()
      modifies this
      ensures Valid() && nextId == old(nextId)
      ensures sales == DeletedSale(old(sales), id)
      ensures old(NoSameNameOverlap(sales)) ==> NoSameNameOverlap(sales)
      ensures reply == if FindFirst(old(sales), HasId(id)).None?
                       then Reply(NotFound, Message("Sale not found"))
                       else Reply(OK, Message("Sale deleted successfully"))
    {
      if NoSameNameOverlap(sales) {
        DeleteSaleKeepsNoOverlap(sales, id);
      }
      var found := FindFirst(sales, HasId(id));
      if found.None? {
        return Reply(NotFound, Message("Sale not found"));
      }
      var i := found.value;
      PairwiseRemove(sales, i, DistinctIds());
      sales := sales[..i] + sales[i + 1..];
      reply := Reply(OK, Message("Sale deleted successfully"));
    }
  }
}
