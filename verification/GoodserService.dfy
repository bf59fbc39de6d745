/** The goodser repository and service: tables changed row by row inside transactions. */
module GoodserService {
  import opened Prelude
  import opened StockTables
  import opened StockLedger
  import opened SeqAllocator

  /** The product and order tables, and the row statements the service issues on them. */
  class Repository {
    var products: map<Id, Product>
    var nextProduct: Id
    var orders: seq<Order>

    constructor ()
      ensures Db() == Tables(map[], 0, []) && Inv(Db())
    {
      products, nextProduct, orders := map[], 0, [];
    }

    function Db(): Tables
      reads this
    {
      Tables(products, nextProduct, orders)
    }

    /** Back to the tables seen by BeginTx. */
    method Rollback(saved: Tables)
      modifies this
      ensures Db() == saved
    {
      products, nextProduct, orders := saved.products, saved.nextProduct, saved.orders;
    }

    method GetProductForUpdateTx(id: Id) returns (p: Option<Product>)
      ensures p.Some? <==> id in products
      ensures p.Some? ==> p.value == products[id]
    {
      if id in products {
        return Some(products[id]);
      }
      return None;
    }

    method UpdateProductReservedTx(id: Id, deltaQty: int, deltaReserved: int)
      modifies this`products
      ensures products == AddStock(old(products), id, deltaQty, deltaReserved)
    {
      if id in products {
        var p := products[id];
        products := products[id := p.(quantity := p.quantity + deltaQty, reserved := p.reserved + deltaReserved)];
      }
    }

    method AddProductQuantityTx(id: Id, quantity: int)
      modifies this`products
      ensures products == AddStock(old(products), id, quantity, 0)
    {
      if id in products {
        products := products[id := products[id].(quantity := products[id].quantity + quantity)];
      }
    }

    method CreateProductTx(inventory: string, req: InboundReq) returns (id: Id)
      modifies this`products, this`nextProduct
      ensures Db() == Insert(old(Db()), inventory, req) && id == old(nextProduct)
    {
      id := nextProduct;
      products := products[id := NewProduct(inventory, req)];
      nextProduct := nextProduct + 1;
    }

    method CreateOutboundOrderTx(req: OrderReq) returns (id: Id)
      modifies this`orders
      ensures orders == old(orders) + [NewOrder(req)] && id == |old(orders)|
    {
      id := |orders|;
      var kind := if req.kind.Some? then req.kind.value else OUTBOUND;
      var status := if req.status.Some? then req.status.value else PENDING;
      orders := orders + [Order(req.inventory, kind, status, req.items, req.source)];
    }

    method UpdateOutboundOrderStatusTx(id: Id, status: string)
      requires id < |orders|
      modifies this`orders
      ensures orders == WithStatus(old(orders), id, status)
    {
      orders := orders[id := orders[id].(status := status)];
    }

    /** A query outside the transaction: it sees the committed rows only. */
    static method FindProductByCode(committed: Tables, inventory: string, code: string) returns (r: Option<Id>)
      ensures r == FindByCode(committed.products, inventory, code, committed.nextProduct)
    {
      var id := 0;
      while id < committed.nextProduct
        invariant 0 <= id <= committed.nextProduct
        invariant forall p: Id | p < id :: !Matches(committed.products, p, inventory, code)
      {
        if Matches(committed.products, id, inventory, code) {
          FirstMatch(committed.products, inventory, code, id, committed.nextProduct);
          return Some(id);
        }
        id := id + 1;
      }
      return None;
    }
  }

  lemma FirstMatch(products: map<Id, Product>, inventory: string, code: string, id: Id, bound: Id)
    requires id < bound && Matches(products, id, inventory, code)
    requires forall p: Id | p < id :: !Matches(products, p, inventory, code)
    ensures FindByCode(products, inventory, code, bound) == Some(id)
  {
    var r := FindByCode(products, inventory, code, bound);
    assert r.Some? ==> !(r.value < id) && !(id < r.value);
  }

  class Service {
    const repo: Repository
    const seqs: SeqTables

    constructor (repo: Repository, seqs: SeqTables)
      ensures this.repo == repo && this.seqs == seqs
    {
      this.repo, this.seqs := repo, seqs;
    }

    /** Checks and reserves every item; on the first refusal the caller rolls back. */
    method LockItems(items: seq<Item>) returns (error: Option<Error>)
      modifies repo`products
      ensures var locked := Lock(old(repo.products), items);
              if error.Some? then locked == Failure(error.value) else locked == Success(repo.products)
    {
      var i := 0;
      while i < |items|
        invariant 0 <= i <= |items|
        invariant Lock(repo.products, items[i..]) == Lock(old(repo.products), items)
      {
        var item := items[i];
        var product := repo.GetProductForUpdateTx(item.product);
        if product.None? {
          return Some(NoRows);
        }
        if product.value.quantity - product.value.reserved < item.quantity {
          return Some(InsufficientStock);
        }
        repo.UpdateProductReservedTx(item.product, 0, item.quantity);
        assert items[i..][1..] == items[i + 1..];
        i := i + 1;
      }
      return None;
    }

    /** Moves every item of an order without checks. */
    method MoveItems(items: seq<Item>, move: Move)
      modifies repo`products
      ensures repo.products == Apply(old(repo.products), items, move)
    {
      var i := 0;
      while i < |items|
        invariant 0 <= i <= |items|
        invariant Apply(repo.products, items[i..], move) == Apply(old(repo.products), items, move)
      {
        var q := items[i].quantity;
        match move {
          case Hold => repo.UpdateProductReservedTx(items[i].product, 0, q);
          case Free => repo.UpdateProductReservedTx(items[i].product, 0, -q);
          case Ship => repo.UpdateProductReservedTx(items[i].product, -q, -q);
        }
        assert items[i..][1..] == items[i + 1..];
        i := i + 1;
      }
    }

    method CreateOutboundOrder(req: OrderReq) returns (r: Result<Id, Error>)
      modifies repo
      ensures Outcome(repo.Db(), r) == CreateOutbound(old(repo.Db()), req)
      ensures r.Failure? ==> repo.Db() == old(repo.Db())
      ensures old(Inv(repo.Db())) && WellFormed(CreateOrder(req)) ==> Inv(repo.Db())
    {
      var saved := repo.Db();
      var error := LockItems(req.items);
      if error.Some? {
        repo.Rollback(saved);
        return Failure(error.value);
      }
      var id := repo.CreateOutboundOrderTx(req);
      if Inv(saved) && WellFormed(CreateOrder(req)) { StepKeepsInv(saved, CreateOrder(req)); }
      return Success(id);
    }

    method CheckOpen(id: Id, reserveOnly: bool) returns (error: Option<Error>)
      ensures error == Refusal(repo.Db(), id, reserveOnly)
    {
      if id >= |repo.orders| {
        return Some(NoRows);
      }
      var order := repo.orders[id];
      if reserveOnly && order.kind != RESERVE {
        return Some(InvalidOrderStatus);
      }
      if order.status != PENDING && order.status != RESERVED {
        return Some(InvalidOrderStatus);
      }
      return None;
    }

    method ConfirmOutboundOrder(id: Id) returns (r: Result<Id, Error>)
      modifies repo
      ensures Outcome(repo.Db(), r) == ConfirmOutbound(old(repo.Db()), id)
      ensures r.Failure? ==> repo.Db() == old(repo.Db())
      ensures old(Inv(repo.Db())) ==> Inv(repo.Db())
    {
      ghost var saved := repo.Db();
      var error := CheckOpen(id, false);
      if error.Some? {
        return Failure(error.value);
      }
      MoveItems(repo.orders[id].items, Ship);
      repo.UpdateOutboundOrderStatusTx(id, CONFIRMED);
      if Inv(saved) { StepKeepsInv(saved, Confirm(id)); }
      return Success(id);
    }

    method CancelOutboundOrder(id: Id) returns (r: Result<Id, Error>)
      modifies repo
      ensures Outcome(repo.Db(), r) == CancelOutbound(old(repo.Db()), id)
      ensures r.Failure? ==> repo.Db() == old(repo.Db())
      ensures old(Inv(repo.Db())) ==> Inv(repo.Db())
    {
      ghost var saved := repo.Db();
      var error := CheckOpen(id, false);
      if error.Some? {
        return Failure(error.value);
      }
      MoveItems(repo.orders[id].items, Free);
      repo.UpdateOutboundOrderStatusTx(id, CANCELLED);
      if Inv(saved) { StepKeepsInv(saved, Cancel(id)); }
      return Success(id);
    }

    method CancelReserveOrder(id: Id) returns (r: Result<Id, Error>)
      modifies repo
      ensures Outcome(repo.Db(), r) == CancelReserve(old(repo.Db()), id)
      ensures r.Failure? ==> repo.Db() == old(repo.Db())
      ensures old(Inv(repo.Db())) ==> Inv(repo.Db())
    {
      ghost var saved := repo.Db();
      var error := CheckOpen(id, true);
      if error.Some? {
        return Failure(error.value);
      }
      MoveItems(repo.orders[id].items, Free);
      repo.UpdateOutboundOrderStatusTx(id, CANCELLED);
      if Inv(saved) { StepKeepsInv(saved, Unreserve(id)); }
      return Success(id);
    }

    method ReserveToOutboundOrder(id: Id, inventory: string, items: seq<Item>) returns (r: Result<Id, Error>)
      modifies repo
      ensures Outcome(repo.Db(), r) == ReserveToOutbound(old(repo.Db()), id, inventory, items)
      ensures r.Failure? ==> repo.Db() == old(repo.Db())
      ensures old(Inv(repo.Db())) && NonNegative(items) ==> Inv(repo.Db())
    {
      var saved := repo.Db();
      var error := CheckOpen(id, true);
      if error.Some? {
        return Failure(error.value);
      }
      MoveItems(repo.orders[id].items, Free);
      repo.UpdateOutboundOrderStatusTx(id, CONFIRMED);
      var newId := repo.CreateOutboundOrderTx(OrderReq(inventory, Some(OUTBOUND), Some(PENDING), items, Some(id)));
      error := LockItems(items);
      if error.Some? {
        repo.Rollback(saved);
        return Failure(error.value);
      }
      if Inv(saved) && NonNegative(items) { StepKeepsInv(saved, Convert(id, inventory, items)); }
      return Success(newId);
    }

    /** One inbound item, looked up in `committed`, written to the current tables. */
    method ReceiveItem(committed: Tables, inventory: string, req: InboundReq) returns (id: Id)
      modifies repo
      ensures repo.Db() == Receive(committed, old(repo.Db()), inventory, req)
      ensures id == OrElse(FindByCode(committed.products, inventory, ReqCode(req), committed.nextProduct),
                           old(repo.nextProduct))
    {
      var found := Repository.FindProductByCode(committed, inventory, ReqCode(req));
      if found.None? {
        id := repo.CreateProductTx(inventory, req);
      } else {
        var quantity := if req.quantity.Some? then req.quantity.value else 1;
        repo.AddProductQuantityTx(found.value, quantity);
        id := found.value;
      }
    }

    method InboundSingleProduct(inventory: string, req: InboundReq) returns (r: Result<Id, Error>)
      modifies repo
      ensures Outcome(repo.Db(), r) == InboundSingle(old(repo.Db()), inventory, req)
      ensures old(Inv(repo.Db())) && WellFormed(Inbound(inventory, req)) ==> Inv(repo.Db())
    {
      var committed := repo.Db();
      var id := ReceiveItem(committed, inventory, req);
      if Inv(committed) && WellFormed(Inbound(inventory, req)) { StepKeepsInv(committed, Inbound(inventory, req)); }
      return Success(id);
    }

    method InboundBatchProducts(inventory: string, reqs: seq<InboundReq>) returns (r: Result<Id, Error>)
      modifies repo
      ensures Outcome(repo.Db(), r) == InboundBatch(old(repo.Db()), inventory, reqs)
      ensures old(Inv(repo.Db())) && NonNegativeReqs(reqs) ==> Inv(repo.Db())
    {
      var committed := repo.Db();
      var i := 0;
      while i < |reqs|
        invariant 0 <= i <= |reqs|
        invariant ReceiveAll(committed, repo.Db(), inventory, reqs[i..]) ==
                  ReceiveAll(committed, committed, inventory, reqs)
      {
        var _ := ReceiveItem(committed, inventory, reqs[i]);
        assert reqs[i..][1..] == reqs[i + 1..];
        i := i + 1;
      }
      if Inv(committed) && NonNegativeReqs(reqs) { StepKeepsInv(committed, Batch(inventory, reqs)); }
      return Success(|reqs|);
    }

    method InboundSearchImportItems(items: seq<Item>) returns (r: Result<Id, Error>)
      modifies repo
      ensures Outcome(repo.Db(), r) == InboundSearchImport(old(repo.Db()), items)
      ensures r.Failure? ==> repo.Db() == old(repo.Db())
      ensures old(Inv(repo.Db())) && NonNegative(items) ==> Inv(repo.Db())
    {
      var saved := repo.Db();
      var i := 0;
      while i < |items|
        invariant 0 <= i <= |items|
        invariant repo.nextProduct == saved.nextProduct && repo.orders == saved.orders
        invariant Import(repo.products, items[i..]) == Import(saved.products, items)
      {
        var product := repo.GetProductForUpdateTx(items[i].product);
        if product.None? {
          repo.Rollback(saved);
          return Failure(ProductNotFound);
        }
        repo.AddProductQuantityTx(items[i].product, items[i].quantity);
        assert items[i..][1..] == items[i + 1..];
        i := i + 1;
      }
      if Inv(saved) && NonNegative(items) { StepKeepsInv(saved, SearchImport(items)); }
      return Success(|items|);
    }

    /**
     * The row is deleted outside the transaction, so when recycling the number fails the product is
     * gone all the same and its number stays held.
     */
    method DeleteProductRow(id: Id, recycleFails: bool) returns (r: Result<Id, Error>)
      modifies repo, seqs
      ensures repo.Db() == DeleteProduct(old(repo.Db()), id).db
      ensures r == if id in old(repo.products) && recycleFails then Failure(Database)
                   else DeleteProduct(old(repo.Db()), id).result
      ensures old(Inv(repo.Db())) ==> Inv(repo.Db())
      ensures r.Success? ==>
                var p := old(repo.products)[id];
                var zone := Zone(p.inventory, p.mainZone, p.subZone);
                && seqs.ViewOf(zone) == Recycle(old(seqs.ViewOf(zone)), p.seqNumber)
                && forall z | z != zone :: seqs.ViewOf(z) == old(seqs.ViewOf(z))
      ensures r.Failure? ==> forall z :: seqs.ViewOf(z) == old(seqs.ViewOf(z))
    {
      ghost var saved := repo.Db();
      var product := repo.GetProductForUpdateTx(id);
      if product.None? {
        return Failure(ProductNotFound);
      }
      repo.products := repo.products - {id};
      if Inv(saved) { StepKeepsInv(saved, RemoveProduct(id)); }
      if recycleFails {
        return Failure(Database);
      }
      var p := product.value;
      seqs.AddRecycledSeqTx(Zone(p.inventory, p.mainZone, p.subZone), p.seqNumber);
      return Success(id);
    }
  }
}
