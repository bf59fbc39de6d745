/** What a run of calls adds up to: settlements, shipped and received stock, conversions, codes. */
module StockHistory {
  import opened Prelude
  import opened StockTables
  import opened StockLedger

  // ---- Each order is settled at most once -----------------------------------------

  predicate Final(db: Tables, o: Id) {
    o < |db.orders| && !IsOpen(db.orders[o].status)
  }

  /** A settling call on `o`, by any of the four paths, that goes through. */
  predicate Settles(db: Tables, step: Step, o: Id) {
    Settling(step, o) && Next(db, step).result.Success?
  }

  function Settlements(db: Tables, steps: seq<Step>, o: Id): nat {
    if steps == [] then 0
    else
      var before := steps[..|steps| - 1];
      Settlements(db, before, o) + (if Settles(Run(db, before), steps[|steps| - 1], o) then 1 else 0)
  }

  /** A call makes an order final exactly when it settles it, and a final order cannot be settled again. */
  lemma StepSettles(db: Tables, step: Step, o: Id)
    requires WellFormed(step)
    ensures Final(Next(db, step).db, o) <==> Final(db, o) || Settles(db, step, o)
    ensures Settles(db, step, o) ==> !Final(db, o)
    ensures o < |db.orders| ==>
      o < |Next(db, step).db.orders| && Next(db, step).db.orders[o].items == db.orders[o].items
  {
    if step.Batch? { ReceiveAllKeepsOrders(db, db, step.inventory, step.inbounds); }
  }

  lemma {:induction false} ReceiveAllKeepsOrders(committed: Tables, db: Tables, inventory: string,
                                                 reqs: seq<InboundReq>)
    ensures ReceiveAll(committed, db, inventory, reqs).orders == db.orders
    decreases |reqs|
  {
    if reqs != [] {
      ReceiveAllKeepsOrders(committed, Receive(committed, db, inventory, reqs[0]), inventory, reqs[1..]);
    }
  }

  /** Over any run the number of settlements of an order is 1 if the run made it final and 0 otherwise. */
  lemma {:induction false} SettledAtMostOnce(db: Tables, steps: seq<Step>, o: Id)
    requires AllWellFormed(steps)
    ensures Settlements(db, steps, o) == if Final(Run(db, steps), o) && !Final(db, o) then 1 else 0
    ensures Final(db, o) ==> Final(Run(db, steps), o)
  {
    if steps != [] {
      var before := steps[..|steps| - 1];
      SettledAtMostOnce(db, before, o);
      StepSettles(Run(db, before), steps[|steps| - 1], o);
    }
  }

  // ---- Conservation of stock --------------------------------------------------------

  /** The stock one inbound item brings in: 1 by default for a known product, 0 for a new one. */
  function Receipt(committed: Tables, newId: Id, inventory: string, req: InboundReq): Item {
    var found := FindByCode(committed.products, inventory, ReqCode(req), committed.nextProduct);
    Item(OrElse(found, newId), OrElse(req.quantity, if found.Some? then 1 else 0))
  }

  function BatchReceipts(committed: Tables, newId: Id, inventory: string, reqs: seq<InboundReq>): seq<Item>
    decreases |reqs|
  {
    if reqs == [] then []
    else
      var known := CodeKnown(committed, inventory, ReqCode(reqs[0]));
      [Receipt(committed, newId, inventory, reqs[0])]
      + BatchReceipts(committed, if known then newId else newId + 1, inventory, reqs[1..])
  }

  function Receipts(db: Tables, step: Step): seq<Item> {
    if Next(db, step).result.Failure? then []
    else match step
      case Inbound(inventory, req) => [Receipt(db, db.nextProduct, inventory, req)]
      case Batch(inventory, reqs) => BatchReceipts(db, db.nextProduct, inventory, reqs)
      case SearchImport(items) => items
      case NewProductStep(_, req) => [Item(db.nextProduct, OrElse(req.quantity, 0))]
      case _ => []
  }

  /** The items that leave the warehouse: those of an order that ConfirmOutbound settles, nothing else. */
  function Shipments(db: Tables, step: Step): seq<Item> {
    if step.Confirm? && step.id < |db.orders| && IsOpen(db.orders[step.id].status) then db.orders[step.id].items else []
  }

  function Received(db: Tables, steps: seq<Step>, id: Id): int {
    if steps == [] then 0
    else
      var before := steps[..|steps| - 1];
      Received(db, before, id) + Demand(Receipts(Run(db, before), steps[|steps| - 1]), id)
  }

  function Shipped(db: Tables, steps: seq<Step>, id: Id): int {
    if steps == [] then 0
    else
      var before := steps[..|steps| - 1];
      Shipped(db, before, id) + Demand(Shipments(Run(db, before), steps[|steps| - 1]), id)
  }

  function OnHand(products: map<Id, Product>, id: Id): int {
    if id in products then products[id].quantity else 0
  }

  lemma {:induction false} ReceiveAllAddsReceipts(committed: Tables, db: Tables, inventory: string,
                                                  reqs: seq<InboundReq>, id: Id)
    requires committed.products.Keys <= db.products.Keys && committed.nextProduct <= db.nextProduct
    requires forall p | p in db.products :: p < db.nextProduct
    ensures var db' := ReceiveAll(committed, db, inventory, reqs);
            && db.products.Keys <= db'.products.Keys && db.nextProduct <= db'.nextProduct
            && (forall p | p in db'.products :: p < db'.nextProduct)
            && (id in db'.products && id !in db.products ==> id >= db.nextProduct)
            && OnHand(db'.products, id) ==
               OnHand(db.products, id) + Demand(BatchReceipts(committed, db.nextProduct, inventory, reqs), id)
            && (id >= db'.nextProduct ==> Demand(BatchReceipts(committed, db.nextProduct, inventory, reqs), id) == 0)
    decreases |reqs|
  {
    if reqs != [] {
      var first := Receipt(committed, db.nextProduct, inventory, reqs[0]);
      var next := Receive(committed, db, inventory, reqs[0]);
      ReceiveAllAddsReceipts(committed, next, inventory, reqs[1..], id);
      var tail := BatchReceipts(committed, next.nextProduct, inventory, reqs[1..]);
      assert BatchReceipts(committed, db.nextProduct, inventory, reqs) == [first] + tail;
      assert ([first] + tail)[1..] == tail;
      assert OnHand(next.products, id) == OnHand(db.products, id) + (if first.product == id then first.quantity else 0);
    }
  }

  lemma {:induction false} ImportAddsItems(products: map<Id, Product>, items: seq<Item>, id: Id)
    requires Import(products, items).Success?
    ensures Import(products, items).value.Keys == products.Keys
    ensures OnHand(Import(products, items).value, id) == OnHand(products, id) + Demand(items, id)
  {
    if items != [] {
      ImportAddsItems(AddStock(products, items[0].product, items[0].quantity, 0), items[1..], id);
    }
  }

  /** Same rows, same quantities. */
  ghost predicate SameQuantities(before: map<Id, Product>, after: map<Id, Product>) {
    after.Keys == before.Keys && forall id | id in before :: after[id].quantity == before[id].quantity
  }

  lemma LockKeepsQuantities(products: map<Id, Product>, items: seq<Item>)
    requires Lock(products, items).Success?
    ensures SameQuantities(products, Lock(products, items).value)
  {
    LockIsApply(products, items);
    ApplyMovesTotals(products, items, Hold);
  }

  lemma FreeKeepsQuantities(products: map<Id, Product>, items: seq<Item>)
    ensures SameQuantities(products, Apply(products, items, Free))
  {
    ApplyMovesTotals(products, items, Free);
  }

  /** Creating, cancelling and converting orders moves no stock. */
  lemma OrdersKeepQuantities(db: Tables, step: Step)
    requires step.CreateOrder? || step.Cancel? || step.Unreserve? || step.Convert?
    ensures SameQuantities(db.products, Next(db, step).db.products)
  {
    match step
    case CreateOrder(req) => if Lock(db.products, req.items).Success? { LockKeepsQuantities(db.products, req.items); }
    case Cancel(o) => if o < |db.orders| { FreeKeepsQuantities(db.products, db.orders[o].items); }
    case Unreserve(o) => if o < |db.orders| { FreeKeepsQuantities(db.products, db.orders[o].items); }
    case Convert(o, inventory, items) =>
      if o < |db.orders| {
        var released := Apply(db.products, db.orders[o].items, Free);
        FreeKeepsQuantities(db.products, db.orders[o].items);
        if Lock(released, items).Success? { LockKeepsQuantities(released, items); }
      }
  }

  /** Row ids only grow, and rows that appear get new ids. */
  ghost predicate RowsGrow(db: Tables, db': Tables) {
    && db.nextProduct <= db'.nextProduct
    && forall id | id in db'.products && id !in db.products :: db.nextProduct <= id < db'.nextProduct
  }

  /** What one call does to a product's quantity, given what it receives and ships. */
  ghost predicate MovesStock(db: Tables, db': Tables, received: seq<Item>, shipped: seq<Item>, id: Id) {
    && (id in db'.products ==>
         db'.products[id].quantity == OnHand(db.products, id) + Demand(received, id) - Demand(shipped, id))
    && (id >= db'.nextProduct ==> Demand(received, id) == 0 == Demand(shipped, id))
  }

  lemma ConfirmMovesStock(db: Tables, o: Id, id: Id)
    requires Inv(db) && o < |db.orders|
    ensures MovesStock(db, ConfirmOutbound(db, o).db, [], Shipments(db, Confirm(o)), id)
    ensures RowsGrow(db, ConfirmOutbound(db, o).db)
  {
    ApplyMovesTotals(db.products, db.orders[o].items, Ship);
    assert Issued(db, db.orders[o].items);
    if id >= db.nextProduct { DemandOfAbsent(db.orders[o].items, id); }
  }

  lemma ReceiptsMoveStock(db: Tables, step: Step, id: Id)
    requires Inv(db)
    requires step.Inbound? || step.Batch? || step.SearchImport? || step.NewProductStep?
    ensures MovesStock(db, Next(db, step).db, Receipts(db, step), [], id)
    ensures RowsGrow(db, Next(db, step).db)
  {
    forall p: Id
      ensures MovesStock(db, Next(db, step).db, Receipts(db, step), [], p)
      ensures RowsGrow(db, Next(db, step).db)
    {
      match step
      case Inbound(inventory, req) =>
      case Batch(inventory, reqs) => BatchMovesStock(db, inventory, reqs, p);
      case SearchImport(items) => if Import(db.products, items).Success? { ImportAddsItems(db.products, items, p); }
      case NewProductStep(inventory, req) =>
    }
  }

  lemma BatchMovesStock(db: Tables, inventory: string, reqs: seq<InboundReq>, id: Id)
    requires Inv(db)
    ensures MovesStock(db, ReceiveAll(db, db, inventory, reqs),
                       BatchReceipts(db, db.nextProduct, inventory, reqs), [], id)
    ensures RowsGrow(db, ReceiveAll(db, db, inventory, reqs))
  {
    forall p: Id { ReceiveAllAddsReceipts(db, db, inventory, reqs, p); }
  }

  /** One call changes a product's quantity by what it receives minus what it ships. */
  lemma StepMovesStock(db: Tables, step: Step, id: Id)
    requires Inv(db)
    ensures MovesStock(db, Next(db, step).db, Receipts(db, step), Shipments(db, step), id)
    ensures RowsGrow(db, Next(db, step).db)
  {
    if step.Confirm? {
      if step.id < |db.orders| { ConfirmMovesStock(db, step.id, id); }
    } else if step.CreateOrder? || step.Cancel? || step.Unreserve? || step.Convert? {
      OrdersKeepQuantities(db, step);
    } else if !step.RemoveProduct? {
      ReceiptsMoveStock(db, step, id);
    }
  }

  /**
   * After every run each product's quantity is its initial quantity plus all stock received minus the
   * items of the orders ConfirmOutbound settled. Converted and cancelled orders ship nothing.
   */
  lemma {:induction false} StockIsConserved(db: Tables, steps: seq<Step>)
    requires Inv(db) && AllWellFormed(steps)
    ensures forall id | id in Run(db, steps).products ::
              Run(db, steps).products[id].quantity ==
              OnHand(db.products, id) + Received(db, steps, id) - Shipped(db, steps, id)
    ensures forall id: Id | id >= Run(db, steps).nextProduct ::
              OnHand(db.products, id) == 0 == Received(db, steps, id) == Shipped(db, steps, id)
  {
    if steps != [] {
      var before, last := steps[..|steps| - 1], steps[|steps| - 1];
      StockIsConserved(db, before);
      LedgerInvariant(db, before);
      forall id: Id
        ensures id in Run(db, steps).products ==>
          Run(db, steps).products[id].quantity ==
          OnHand(db.products, id) + Received(db, steps, id) - Shipped(db, steps, id)
        ensures id >= Run(db, steps).nextProduct ==>
          OnHand(db.products, id) == 0 == Received(db, steps, id) == Shipped(db, steps, id)
      {
        StepMovesStock(Run(db, before), last, id);
      }
    }
  }

  // ---- Converting a reserve ------------------------------------------------------------

  /** A list whose totals fit wherever the product exists is never refused for lack of stock. */
  lemma {:induction false} LockNeverShort(products: map<Id, Product>, items: seq<Item>)
    requires NonNegative(items)
    requires forall i | 0 <= i < |items| && items[i].product in products ::
               Demand(items, items[i].product) <=
               products[items[i].product].quantity - products[items[i].product].reserved
    ensures Lock(products, items).Success? || Lock(products, items) == Failure(NoRows)
  {
    if items != [] && items[0].product in products {
      var rest := items[1..];
      var next := AddStock(products, items[0].product, 0, items[0].quantity);
      DemandOfMember(items, 0);
      assert forall i | 0 <= i < |rest| :: rest[i] == items[i + 1];
      LockNeverShort(next, rest);
    }
  }

  lemma AdjustBack(products: map<Id, Product>, items: seq<Item>)
    ensures Adjusted(Adjusted(products, items, Free), items, Hold) == products
  {
  }

  /**
   * Converting an open reserve with its own items succeeds exactly when its products still exist,
   * never fails for stock, and leaves every product untouched.
   */
  lemma ConvertWithOwnItems(db: Tables, o: Id, inventory: string)
    requires Inv(db) && Refusal(db, o, true).None?
    ensures var items := db.orders[o].items;
            var out := ReserveToOutbound(db, o, inventory, items);
            && (out.result.Success? <==> forall i | 0 <= i < |items| :: items[i].product in db.products)
            && (out.result.Failure? ==> out == Outcome(db, Failure(NoRows)))
            && out.db.products == db.products
            && (out.result.Success? ==>
                  out.db.orders ==
                  db.orders[o := db.orders[o].(status := CONFIRMED)] +
                  [Order(inventory, OUTBOUND, PENDING, items, Some(o))])
  {
    var items := db.orders[o].items;
    var released := Apply(db.products, items, Free);
    ApplyMovesTotals(db.products, items, Free);
    forall i | 0 <= i < |items| && items[i].product in released
      ensures Demand(items, items[i].product) <=
              released[items[i].product].quantity - released[items[i].product].reserved
    {
      assert db.products[items[i].product].reserved <= db.products[items[i].product].quantity;
    }
    LockNeverShort(released, items);
    LockChecksTotals(released, items);
    AdjustBack(db.products, items);
  }
}
