/** The stock tables of goodser and the effect of each service transaction on them. */
module StockTables {
  import opened Prelude
  import ProductCode

  /** Row identity. The primary keys are fresh UUIDs; here they are handed out in increasing order. */
  type Id = nat

  datatype Item = Item(product: Id, quantity: int)

  datatype Product = Product(inventory: string, code: string, mainZone: string, subZone: string,
                             seqNumber: int, statusCode: string, quantity: int, reserved: int)

  datatype Order = Order(inventory: string, kind: string, status: string, items: seq<Item>, source: Option<Id>)

  /** Products may be deleted; orders are never deleted, so an order's id is its position. */
  datatype Tables = Tables(products: map<Id, Product>, nextProduct: Id, orders: seq<Order>)

  datatype Error = NoRows | ProductNotFound | InsufficientStock | InvalidOrderStatus | Database

  datatype Outcome = Outcome(db: Tables, result: Result<Id, Error>)

  datatype OrderReq = OrderReq(inventory: string, kind: Option<string>, status: Option<string>,
                               items: seq<Item>, source: Option<Id>)

  datatype InboundReq = InboundReq(mainZone: string, subZone: string, seqNumber: int,
                                   quantity: Option<int>, statusCode: string)

  const OUTBOUND := "outbound"
  const RESERVE := "reserve"
  const PENDING := "pending"
  const RESERVED := "reserved"
  const CONFIRMED := "confirmed"
  const CANCELLED := "cancelled"

  predicate IsOpen(status: string) {
    status == PENDING || status == RESERVED
  }

  function OrElse<T>(o: Option<T>, default: T): T {
    if o.Some? then o.value else default
  }

  // ---- Row effects -------------------------------------------------------

  /** `UPDATE ... SET quantity = quantity + ?, reserved_quantity = reserved_quantity + ? WHERE id = ?`. */
  function AddStock(products: map<Id, Product>, id: Id, deltaQty: int, deltaReserved: int): map<Id, Product> {
    if id !in products then products
    else products[id := products[id].(quantity := products[id].quantity + deltaQty,
                                      reserved := products[id].reserved + deltaReserved)]
  }

  /** What one item does to its product: lock stock, give a lock back, or ship locked stock. */
  datatype Move = Hold | Free | Ship

  function DeltaQty(move: Move, q: int): int {
    if move.Ship? then -q else 0
  }

  function DeltaReserved(move: Move, q: int): int {
    if move.Hold? then q else -q
  }

  /** The item loops of the service, without stock checks. */
  function Apply(products: map<Id, Product>, items: seq<Item>, move: Move): map<Id, Product> {
    if items == [] then products
    else
      var q := items[0].quantity;
      Apply(AddStock(products, items[0].product, DeltaQty(move, q), DeltaReserved(move, q)), items[1..], move)
  }

  /** The locking loop: every item is checked against the stock left by the items before it. */
  function Lock(products: map<Id, Product>, items: seq<Item>): Result<map<Id, Product>, Error> {
    if items == [] then Success(products)
    else if items[0].product !in products then Failure(NoRows)
    else if products[items[0].product].quantity - products[items[0].product].reserved < items[0].quantity then
      Failure(InsufficientStock)
    else
      Lock(AddStock(products, items[0].product, 0, items[0].quantity), items[1..])
  }

  predicate Matches(products: map<Id, Product>, id: Id, inventory: string, code: string) {
    id in products && products[id].inventory == inventory && products[id].code == code
  }

  /** `SELECT ... WHERE inventory_id = ? AND code = ?`: the first matching row. */
  function FindByCode(products: map<Id, Product>, inventory: string, code: string, bound: Id): (r: Option<Id>)
    ensures r.Some? ==> r.value < bound && Matches(products, r.value, inventory, code)
    ensures forall id: Id | id < (if r.Some? then r.value else bound) :: !Matches(products, id, inventory, code)
  {
    if bound == 0 then None
    else
      var earlier := FindByCode(products, inventory, code, bound - 1);
      if earlier.Some? then earlier
      else if Matches(products, bound - 1, inventory, code) then Some(bound - 1)
      else None
  }

  function ReqCode(req: InboundReq): string {
    ProductCode.Code(req.mainZone, req.subZone, req.seqNumber, req.statusCode)
  }

  function NewProduct(inventory: string, req: InboundReq): Product {
    Product(inventory, ReqCode(req), req.mainZone, req.subZone, req.seqNumber, req.statusCode,
            OrElse(req.quantity, 0), 0)
  }

  /** `CreateProductTx`: a new row with nothing reserved. */
  function Insert(db: Tables, inventory: string, req: InboundReq): Tables {
    db.(products := db.products[db.nextProduct := NewProduct(inventory, req)], nextProduct := db.nextProduct + 1)
  }

  function Lookup(db: Tables, inventory: string, code: string): Option<Id> {
    FindByCode(db.products, inventory, code, db.nextProduct)
  }

  predicate CodeKnown(db: Tables, inventory: string, code: string) {
    Lookup(db, inventory, code).Some?
  }

  // ---- Transactions ------------------------------------------------------

  function NewOrder(req: OrderReq): Order {
    Order(req.inventory, OrElse(req.kind, OUTBOUND), OrElse(req.status, PENDING), req.items, req.source)
  }

  function CreateOutbound(db: Tables, req: OrderReq): Outcome {
    var locked := Lock(db.products, req.items);
    if locked.Failure? then Outcome(db, Failure(locked.error))
    else Outcome(db.(products := locked.value, orders := db.orders + [NewOrder(req)]), Success(|db.orders|))
  }

  /** Why a settling call on an order is refused, if it is. */
  function Refusal(db: Tables, id: Id, reserveOnly: bool): Option<Error> {
    if id >= |db.orders| then Some(NoRows)
    else if reserveOnly && db.orders[id].kind != RESERVE then Some(InvalidOrderStatus)
    else if !IsOpen(db.orders[id].status) then Some(InvalidOrderStatus)
    else None
  }

  function WithStatus(orders: seq<Order>, id: Id, status: string): seq<Order>
    requires id < |orders|
  {
    orders[id := orders[id].(status := status)]
  }

  /** Confirm, cancel and cancel-reserve: move every item, then write the final status. */
  function Settle(db: Tables, id: Id, reserveOnly: bool, move: Move, status: string): Outcome {
    var refusal := Refusal(db, id, reserveOnly);
    if refusal.Some? then Outcome(db, Failure(refusal.value))
    else Outcome(db.(products := Apply(db.products, db.orders[id].items, move),
                     orders := WithStatus(db.orders, id, status)), Success(id))
  }

  function ConfirmOutbound(db: Tables, id: Id): Outcome { Settle(db, id, false, Ship, CONFIRMED) }

  function CancelOutbound(db: Tables, id: Id): Outcome { Settle(db, id, false, Free, CANCELLED) }

  function CancelReserve(db: Tables, id: Id): Outcome { Settle(db, id, true, Free, CANCELLED) }

  function ConvertedOrder(id: Id, inventory: string, items: seq<Item>): Order {
    Order(inventory, OUTBOUND, PENDING, items, Some(id))
  }

  /** Release the reserve, mark it confirmed, insert the outbound order, lock its items. */
  function ReserveToOutbound(db: Tables, id: Id, inventory: string, items: seq<Item>): Outcome {
    var refusal := Refusal(db, id, true);
    if refusal.Some? then Outcome(db, Failure(refusal.value))
    else
      var locked := Lock(Apply(db.products, db.orders[id].items, Free), items);
      if locked.Failure? then Outcome(db, Failure(locked.error))
      else
        var orders := WithStatus(db.orders, id, CONFIRMED) + [ConvertedOrder(id, inventory, items)];
        Outcome(db.(products := locked.value, orders := orders), Success(|db.orders|))
  }

  /**
   * One inbound item. The product is looked up in the committed tables, outside the transaction;
   * the row change goes to the transaction's tables. The default amount is 0 for a product that is
   * created and 1 for a product that exists.
   */
  function Receive(committed: Tables, db: Tables, inventory: string, req: InboundReq): Tables {
    var found := FindByCode(committed.products, inventory, ReqCode(req), committed.nextProduct);
    if found.None? then Insert(db, inventory, req)
    else db.(products := AddStock(db.products, found.value, OrElse(req.quantity, 1), 0))
  }

  function InboundSingle(db: Tables, inventory: string, req: InboundReq): Outcome {
    var found := FindByCode(db.products, inventory, ReqCode(req), db.nextProduct);
    Outcome(Receive(db, db, inventory, req), Success(OrElse(found, db.nextProduct)))
  }

  function ReceiveAll(committed: Tables, db: Tables, inventory: string, reqs: seq<InboundReq>): Tables
    decreases |reqs|
  {
    if reqs == [] then db
    else ReceiveAll(committed, Receive(committed, db, inventory, reqs[0]), inventory, reqs[1..])
  }

  function InboundBatch(db: Tables, inventory: string, reqs: seq<InboundReq>): Outcome {
    Outcome(ReceiveAll(db, db, inventory, reqs), Success(|reqs|))
  }

  function Import(products: map<Id, Product>, items: seq<Item>): Result<map<Id, Product>, Error> {
    if items == [] then Success(products)
    else if items[0].product !in products then Failure(ProductNotFound)
    else Import(AddStock(products, items[0].product, items[0].quantity, 0), items[1..])
  }

  function InboundSearchImport(db: Tables, items: seq<Item>): Outcome {
    var imported := Import(db.products, items);
    if imported.Failure? then Outcome(db, Failure(imported.error))
    else Outcome(db.(products := imported.value), Success(|items|))
  }

  function CreateProduct(db: Tables, inventory: string, req: InboundReq): Outcome {
    Outcome(Insert(db, inventory, req), Success(db.nextProduct))
  }

  function DeleteProduct(db: Tables, id: Id): Outcome {
    if id !in db.products then Outcome(db, Failure(ProductNotFound))
    else Outcome(db.(products := db.products - {id}), Success(id))
  }

  // ---- Steps and runs ----------------------------------------------------

  datatype Step =
    | CreateOrder(req: OrderReq)
    | Confirm(id: Id)
    | Cancel(id: Id)
    | Unreserve(id: Id)
    | Convert(id: Id, inventory: string, items: seq<Item>)
    | Inbound(inventory: string, inbound: InboundReq)
    | Batch(inventory: string, inbounds: seq<InboundReq>)
    | SearchImport(items: seq<Item>)
    | NewProductStep(inventory: string, inbound: InboundReq)
    | RemoveProduct(id: Id)

  function Next(db: Tables, step: Step): Outcome {
    match step
    case CreateOrder(req) => CreateOutbound(db, req)
    case Confirm(id) => ConfirmOutbound(db, id)
    case Cancel(id) => CancelOutbound(db, id)
    case Unreserve(id) => CancelReserve(db, id)
    case Convert(id, inventory, items) => ReserveToOutbound(db, id, inventory, items)
    case Inbound(inventory, req) => InboundSingle(db, inventory, req)
    case Batch(inventory, reqs) => InboundBatch(db, inventory, reqs)
    case SearchImport(items) => InboundSearchImport(db, items)
    case NewProductStep(inventory, req) => CreateProduct(db, inventory, req)
    case RemoveProduct(id) => DeleteProduct(db, id)
  }

  function Run(db: Tables, steps: seq<Step>): Tables {
    if steps == [] then db else Next(Run(db, steps[..|steps| - 1]), steps[|steps| - 1]).db
  }

  /** A settling call on order `o`, by any of the four paths. */
  predicate Settling(step: Step, o: Id) {
    step == Confirm(o) || step == Cancel(o) || step == Unreserve(o) || (step.Convert? && step.id == o)
  }
}
