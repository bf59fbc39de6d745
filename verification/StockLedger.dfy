/** The reservation ledger over whole runs: reserved stock is exactly what open orders ask for. */
module StockLedger {
  import opened Prelude
  import opened StockTables

  // ---- What the items of an order ask of one product --------------------------

  /** Total quantity of `id` in an item list, with multiplicity. */
  function Demand(items: seq<Item>, id: Id): int {
    if items == [] then 0
    else (if items[0].product == id then items[0].quantity else 0) + Demand(items[1..], id)
  }

  /** What an order still holds: its demand while it is open, nothing once it is settled. */
  function Claim(order: Order, id: Id): int {
    if IsOpen(order.status) then Demand(order.items, id) else 0
  }

  function OpenDemand(orders: seq<Order>, id: Id): int {
    if orders == [] then 0
    else OpenDemand(orders[..|orders| - 1], id) + Claim(orders[|orders| - 1], id)
  }

  ghost predicate NonNegative(items: seq<Item>) {
    forall i | 0 <= i < |items| :: items[i].quantity >= 0
  }

  lemma {:induction false} DemandIsNonNegative(items: seq<Item>, id: Id)
    requires NonNegative(items)
    ensures Demand(items, id) >= 0
  {
    if items != [] {
      assert items[0].quantity >= 0;
      DemandIsNonNegative(items[1..], id);
    }
  }

  lemma {:induction false} DemandOfMember(items: seq<Item>, i: nat)
    requires NonNegative(items) && i < |items|
    ensures Demand(items, items[i].product) >= items[i].quantity
  {
    if i == 0 {
      DemandIsNonNegative(items[1..], items[0].product);
    } else {
      DemandOfMember(items[1..], i - 1);
      assert items[0].quantity >= 0;
    }
  }

  lemma {:induction false} DemandOfAbsent(items: seq<Item>, id: Id)
    requires forall i | 0 <= i < |items| :: items[i].product != id
    ensures Demand(items, id) == 0
  {
    if items != [] {
      assert items[0].product != id;
      DemandOfAbsent(items[1..], id);
    }
  }

  lemma {:induction false} OpenDemandIsNonNegative(orders: seq<Order>, id: Id)
    requires forall o | 0 <= o < |orders| :: NonNegative(orders[o].items)
    ensures OpenDemand(orders, id) >= 0
  {
    if orders != [] {
      OpenDemandIsNonNegative(orders[..|orders| - 1], id);
      DemandIsNonNegative(orders[|orders| - 1].items, id);
    }
  }

  /** Rewriting one order changes the open demand by the difference of the two claims. */
  lemma {:induction false} OpenDemandAfterUpdate(orders: seq<Order>, o: Id, order: Order, id: Id)
    requires o < |orders|
    ensures OpenDemand(orders[o := order], id) == OpenDemand(orders, id) - Claim(orders[o], id) + Claim(order, id)
  {
    var last := |orders| - 1;
    if o == last {
      assert orders[o := order][..last] == orders[..last];
    } else {
      OpenDemandAfterUpdate(orders[..last], o, order, id);
      assert orders[o := order][..last] == orders[..last][o := order];
    }
  }

  lemma OpenDemandAfterAppend(orders: seq<Order>, order: Order, id: Id)
    ensures OpenDemand(orders + [order], id) == OpenDemand(orders, id) + Claim(order, id)
  {
    assert (orders + [order])[..|orders|] == orders;
  }

  // ---- What the item loops do ---------------------------------------------------

  /** Every product moved once, by its whole demand. */
  function Adjusted(products: map<Id, Product>, items: seq<Item>, move: Move): map<Id, Product> {
    map id | id in products ::
      products[id].(quantity := products[id].quantity + DeltaQty(move, Demand(items, id)),
                    reserved := products[id].reserved + DeltaReserved(move, Demand(items, id)))
  }

  /** Moving item by item, repeated products included, is moving each product by its total demand. */
  lemma {:induction false} ApplyMovesTotals(products: map<Id, Product>, items: seq<Item>, move: Move)
    ensures Apply(products, items, move) == Adjusted(products, items, move)
  {
    if items != [] {
      var q := items[0].quantity;
      var first := AddStock(products, items[0].product, DeltaQty(move, q), DeltaReserved(move, q));
      ApplyMovesTotals(first, items[1..], move);
      assert first.Keys == products.Keys;
    } else {
      assert Adjusted(products, items, move) == products;
    }
  }

  /** Enough stock for the list as a whole, counting repeated products together. */
  ghost predicate Fits(products: map<Id, Product>, items: seq<Item>) {
    forall i | 0 <= i < |items| ::
      && items[i].product in products
      && Demand(items, items[i].product) <= products[items[i].product].quantity - products[items[i].product].reserved
  }

  lemma {:induction false} LockIsApply(products: map<Id, Product>, items: seq<Item>)
    requires Lock(products, items).Success?
    ensures Lock(products, items).value == Apply(products, items, Hold)
  {
    if items != [] {
      LockIsApply(AddStock(products, items[0].product, 0, items[0].quantity), items[1..]);
    }
  }

  /**
   * The item-by-item checks succeed exactly when every product exists and its total demand fits
   * into its free stock, and then each product's reserved quantity grows by its total demand.
   */
  lemma {:induction false} LockChecksTotals(products: map<Id, Product>, items: seq<Item>)
    requires NonNegative(items)
    ensures Lock(products, items).Success? <==> Fits(products, items)
    ensures Lock(products, items).Success? ==> Lock(products, items).value == Adjusted(products, items, Hold)
  {
    if Lock(products, items).Success? {
      LockIsApply(products, items);
      ApplyMovesTotals(products, items, Hold);
    }
    if items != [] && items[0].product in products {
      var head, rest := items[0], items[1..];
      var p := products[head.product];
      var next := AddStock(products, head.product, 0, head.quantity);
      assert NonNegative(rest) by {
        assert forall i | 0 <= i < |rest| :: rest[i] == items[i + 1];
      }
      LockChecksTotals(next, rest);
      DemandOfMember(items, 0);
      if Fits(products, items) {
        assert Demand(items, items[0].product) <= p.quantity - p.reserved;
        forall i | 0 <= i < |rest|
          ensures rest[i].product in next
          ensures Demand(rest, rest[i].product) <= next[rest[i].product].quantity - next[rest[i].product].reserved
        {
          assert rest[i] == items[i + 1];
        }
        assert Fits(next, rest);
      }
      if Lock(products, items).Success? {
        forall i | 0 <= i < |items|
          ensures items[i].product in products
          ensures Demand(items, items[i].product) <=
            products[items[i].product].quantity - products[items[i].product].reserved
        {
          if i > 0 {
            assert rest[i - 1] == items[i];
          } else if j :| 0 <= j < |rest| && rest[j].product == head.product {
            assert Demand(rest, rest[j].product) <= next[rest[j].product].quantity - next[rest[j].product].reserved;
          } else {
            DemandOfAbsent(rest, head.product);
          }
        }
      }
    }
  }

  // ---- The invariant ---------------------------------------------------------------

  /** Every product's reserved quantity is the demand of the open orders, and never exceeds its stock. */
  ghost predicate Balanced(db: Tables) {
    forall id | id in db.products ::
      db.products[id].reserved == OpenDemand(db.orders, id) && 0 <= db.products[id].reserved <= db.products[id].quantity
  }

  /** Only issued ids are in use, and no order asks for a negative quantity. */
  ghost predicate Tidy(db: Tables) {
    && (forall id | id in db.products :: id < db.nextProduct)
    && (forall o | 0 <= o < |db.orders| :: NonNegative(db.orders[o].items) && Issued(db, db.orders[o].items))
  }

  ghost predicate Issued(db: Tables, items: seq<Item>) {
    forall i | 0 <= i < |items| :: items[i].product < db.nextProduct
  }

  ghost predicate Inv(db: Tables) {
    Tidy(db) && Balanced(db)
  }

  ghost predicate NonNegativeReqs(reqs: seq<InboundReq>) {
    forall i | 0 <= i < |reqs| :: OrElse(reqs[i].quantity, 0) >= 0
  }

  /** What the code leaves to its callers: no negative quantities, orders created open. */
  ghost predicate WellFormed(step: Step) {
    match step
    case CreateOrder(req) => NonNegative(req.items) && IsOpen(OrElse(req.status, PENDING))
    case Convert(_, _, items) => NonNegative(items)
    case Inbound(_, req) => OrElse(req.quantity, 0) >= 0
    case Batch(_, reqs) => NonNegativeReqs(reqs)
    case SearchImport(items) => NonNegative(items)
    case NewProductStep(_, req) => OrElse(req.quantity, 0) >= 0
    case _ => true
  }

  // ---- Each transaction keeps the invariant --------------------------------------------

  lemma LockedItemsAreIssued(db: Tables, products: map<Id, Product>, items: seq<Item>)
    requires Tidy(db) && products.Keys == db.products.Keys && NonNegative(items)
    requires Lock(products, items).Success?
    ensures Issued(db, items)
  {
    LockChecksTotals(products, items);
    assert forall i | 0 <= i < |items| :: items[i].product in products;
  }

  /**
   * Locking stock and appending the order that asks for it: the ledger balances afterwards exactly
   * when the new order claims what was locked.
   */
  lemma LockAndAppend(db: Tables, order: Order)
    requires Inv(db) && NonNegative(order.items)
    requires Lock(db.products, order.items).Success?
    ensures var db' := db.(products := Lock(db.products, order.items).value, orders := db.orders + [order]);
            && Tidy(db')
            && (Balanced(db') <==> forall id | id in db.products :: Claim(order, id) == Demand(order.items, id))
  {
    var items := order.items;
    LockChecksTotals(db.products, items);
    LockedItemsAreIssued(db, db.products, items);
    var db' := db.(products := Lock(db.products, items).value, orders := db.orders + [order]);
    assert db'.products.Keys == db.products.Keys;
    forall id | id in db.products
      ensures db'.products[id].quantity == db.products[id].quantity
      ensures db'.products[id].reserved == db.products[id].reserved + Demand(items, id)
      ensures OpenDemand(db'.orders, id) == OpenDemand(db.orders, id) + Claim(order, id)
      ensures 0 <= db'.products[id].reserved <= db'.products[id].quantity
    {
      OpenDemandAfterAppend(db.orders, order, id);
      DemandIsNonNegative(items, id);
      if i :| 0 <= i < |items| && items[i].product == id {
        assert Demand(items, items[i].product) <=
               db.products[items[i].product].quantity - db.products[items[i].product].reserved;
      } else {
        DemandOfAbsent(items, id);
      }
    }
  }

  /** Creating an order keeps the ledger balanced exactly when it is refused, open, or asks for nothing. */
  lemma CreateKeepsBalanceIff(db: Tables, req: OrderReq)
    requires Inv(db) && NonNegative(req.items)
    ensures var out := CreateOutbound(db, req);
            Tidy(out.db) && (Balanced(out.db) <==>
              out.result.Failure? || IsOpen(OrElse(req.status, PENDING)) ||
              (forall i | 0 <= i < |req.items| :: req.items[i].quantity == 0))
  {
    if Lock(db.products, req.items).Success? {
      LockAndAppend(db, NewOrder(req));
      LockChecksTotals(db.products, req.items);
      if forall i | 0 <= i < |req.items| :: req.items[i].quantity == 0 {
        forall id ensures Demand(req.items, id) == 0 { DemandOfZeros(req.items, id); }
      } else {
        var i :| 0 <= i < |req.items| && req.items[i].quantity != 0;
        DemandOfMember(req.items, i);
        assert req.items[i].product in db.products;
        assert req.items[i].quantity > 0;
      }
    }
  }

  lemma {:induction false} DemandOfZeros(items: seq<Item>, id: Id)
    requires forall i | 0 <= i < |items| :: items[i].quantity == 0
    ensures Demand(items, id) == 0
  {
    if items != [] {
      assert items[0].quantity == 0;
      DemandOfZeros(items[1..], id);
    }
  }

  /** An order's own claim is part of the open demand, so it never exceeds what is reserved. */
  lemma {:induction false} ClaimIsCovered(orders: seq<Order>, o: Id, id: Id)
    requires o < |orders| && forall k | 0 <= k < |orders| :: NonNegative(orders[k].items)
    ensures 0 <= Claim(orders[o], id) <= OpenDemand(orders, id)
  {
    var last := |orders| - 1;
    DemandIsNonNegative(orders[o].items, id);
    if o == last {
      OpenDemandIsNonNegative(orders[..last], id);
    } else {
      ClaimIsCovered(orders[..last], o, id);
      DemandIsNonNegative(orders[last].items, id);
    }
  }

  /** Settling an open order by any move keeps the invariant. */
  lemma SettleKeepsInv(db: Tables, o: Id, move: Move, status: string)
    requires Inv(db) && o < |db.orders| && IsOpen(db.orders[o].status)
    requires !move.Hold? && !IsOpen(status)
    ensures Inv(db.(products := Apply(db.products, db.orders[o].items, move),
                    orders := WithStatus(db.orders, o, status)))
  {
    var items := db.orders[o].items;
    var db' := db.(products := Apply(db.products, items, move), orders := WithStatus(db.orders, o, status));
    ApplyMovesTotals(db.products, items, move);
    forall id | id in db'.products
      ensures db'.products[id].reserved == OpenDemand(db'.orders, id)
      ensures 0 <= db'.products[id].reserved <= db'.products[id].quantity
    {
      assert id in db.products;
      OpenDemandAfterUpdate(db.orders, o, db.orders[o].(status := status), id);
      ClaimIsCovered(db.orders, o, id);
    }
    forall k | 0 <= k < |db'.orders| ensures NonNegative(db'.orders[k].items) && Issued(db', db'.orders[k].items) {
      assert db'.orders[k].items == db.orders[k].items;
    }
  }

  lemma ConvertKeepsInv(db: Tables, o: Id, inventory: string, items: seq<Item>)
    requires Inv(db) && NonNegative(items)
    ensures Inv(ReserveToOutbound(db, o, inventory, items).db)
  {
    if Refusal(db, o, true).None? {
      SettleKeepsInv(db, o, Free, CONFIRMED);
      var released := db.(products := Apply(db.products, db.orders[o].items, Free),
                          orders := WithStatus(db.orders, o, CONFIRMED));
      if Lock(released.products, items).Success? {
        LockAndAppend(released, ConvertedOrder(o, inventory, items));
      }
    }
  }

  lemma {:induction false} ClaimsOfUnissued(orders: seq<Order>, bound: Id, id: Id)
    requires id >= bound
    requires forall o, i | 0 <= o < |orders| && 0 <= i < |orders[o].items| :: orders[o].items[i].product < bound
    ensures OpenDemand(orders, id) == 0
  {
    if orders != [] {
      var last := |orders| - 1;
      ClaimsOfUnissued(orders[..last], bound, id);
      assert forall i | 0 <= i < |orders[last].items| :: orders[last].items[i].product < bound;
      DemandOfAbsent(orders[last].items, id);
    }
  }

  lemma InsertKeepsInv(db: Tables, inventory: string, req: InboundReq)
    requires Inv(db) && OrElse(req.quantity, 0) >= 0
    ensures Inv(Insert(db, inventory, req))
  {
    assert forall o, i | 0 <= o < |db.orders| && 0 <= i < |db.orders[o].items| ::
             db.orders[o].items[i].product < db.nextProduct by {
      assert forall o | 0 <= o < |db.orders| :: Issued(db, db.orders[o].items);
    }
    ClaimsOfUnissued(db.orders, db.nextProduct, db.nextProduct);
    var db' := Insert(db, inventory, req);
    forall o | 0 <= o < |db'.orders| ensures NonNegative(db'.orders[o].items) && Issued(db', db'.orders[o].items) {
      assert Issued(db, db.orders[o].items);
    }
  }

  lemma AddQuantityKeepsInv(db: Tables, id: Id, q: int)
    requires Inv(db) && q >= 0
    ensures Inv(db.(products := AddStock(db.products, id, q, 0)))
  {
    var db' := db.(products := AddStock(db.products, id, q, 0));
    assert forall o | 0 <= o < |db'.orders| :: Issued(db, db.orders[o].items) ==> Issued(db', db'.orders[o].items);
  }

  lemma ReceiveKeepsInv(committed: Tables, db: Tables, inventory: string, req: InboundReq)
    requires Inv(db) && OrElse(req.quantity, 0) >= 0
    ensures Inv(Receive(committed, db, inventory, req))
  {
    var found := FindByCode(committed.products, inventory, ReqCode(req), committed.nextProduct);
    if found.None? {
      InsertKeepsInv(db, inventory, req);
    } else {
      AddQuantityKeepsInv(db, found.value, OrElse(req.quantity, 1));
    }
  }

  lemma {:induction false} ReceiveAllKeepsInv(committed: Tables, db: Tables, inventory: string, reqs: seq<InboundReq>)
    requires Inv(db) && NonNegativeReqs(reqs)
    ensures Inv(ReceiveAll(committed, db, inventory, reqs))
    decreases |reqs|
  {
    if reqs != [] {
      assert OrElse(reqs[0].quantity, 0) >= 0;
      ReceiveKeepsInv(committed, db, inventory, reqs[0]);
      ReceiveAllKeepsInv(committed, Receive(committed, db, inventory, reqs[0]), inventory, reqs[1..]);
    }
  }

  lemma {:induction false} ImportKeepsInv(db: Tables, items: seq<Item>)
    requires Inv(db) && NonNegative(items) && Import(db.products, items).Success?
    ensures Inv(db.(products := Import(db.products, items).value))
    decreases |items|
  {
    if items != [] {
      assert items[0].quantity >= 0;
      AddQuantityKeepsInv(db, items[0].product, items[0].quantity);
      ImportKeepsInv(db.(products := AddStock(db.products, items[0].product, items[0].quantity, 0)), items[1..]);
    }
  }

  lemma DeleteKeepsInv(db: Tables, id: Id)
    requires Inv(db)
    ensures Inv(DeleteProduct(db, id).db)
  {
    var db' := DeleteProduct(db, id).db;
    assert forall o | 0 <= o < |db'.orders| :: Issued(db, db.orders[o].items) ==> Issued(db', db'.orders[o].items);
  }

  lemma StepKeepsInv(db: Tables, step: Step)
    requires Inv(db) && WellFormed(step)
    ensures Inv(Next(db, step).db)
  {
    match step
    case CreateOrder(req) => CreateKeepsBalanceIff(db, req);
    case Confirm(id) => if Refusal(db, id, false).None? { SettleKeepsInv(db, id, Ship, CONFIRMED); }
    case Cancel(id) => if Refusal(db, id, false).None? { SettleKeepsInv(db, id, Free, CANCELLED); }
    case Unreserve(id) => if Refusal(db, id, true).None? { SettleKeepsInv(db, id, Free, CANCELLED); }
    case Convert(id, inventory, items) => ConvertKeepsInv(db, id, inventory, items);
    case Inbound(inventory, req) => ReceiveKeepsInv(db, db, inventory, req);
    case Batch(inventory, reqs) => ReceiveAllKeepsInv(db, db, inventory, reqs);
    case SearchImport(items) => if Import(db.products, items).Success? { ImportKeepsInv(db, items); }
    case NewProductStep(inventory, req) => InsertKeepsInv(db, inventory, req);
    case RemoveProduct(id) => DeleteKeepsInv(db, id);
  }

  ghost predicate AllWellFormed(steps: seq<Step>) {
    forall i | 0 <= i < |steps| :: WellFormed(steps[i])
  }

  /** After every run of calls, failed ones included, the ledger is balanced. */
  lemma {:induction false} LedgerInvariant(db: Tables, steps: seq<Step>)
    requires Inv(db) && AllWellFormed(steps)
    ensures Inv(Run(db, steps))
  {
    if steps != [] {
      LedgerInvariant(db, steps[..|steps| - 1]);
      StepKeepsInv(Run(db, steps[..|steps| - 1]), steps[|steps| - 1]);
    }
  }
}
