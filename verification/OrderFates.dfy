/** What each call answers, and what it leaves of every order and every product row. */
module OrderFates {
  import opened Prelude
  import opened StockTables
  import opened StockLedger
  import opened StockHistory
  import opened StockCodes

  // ---- Orders -----------------------------------------------------------------------------

  predicate Confirms(step: Step, o: Id) {
    step == Confirm(o) || (step.Convert? && step.id == o)
  }

  predicate Cancels(step: Step, o: Id) {
    step == Cancel(o) || step == Unreserve(o)
  }

  /** The status a call leaves on an order that stood in `status`. */
  function StatusAfter(status: string, step: Step, succeeds: bool, o: Id): string {
    if succeeds && Confirms(step, o) then "confirmed"
    else if succeeds && Cancels(step, o) then "cancelled"
    else status
  }

  /** A call changes nothing of an order but its status, and that only by settling it. */
  lemma StepOnOrder(db: Tables, step: Step, o: Id)
    requires o < |db.orders|
    ensures var out := Next(db, step);
            && o < |out.db.orders|
            && out.db.orders[o] ==
               db.orders[o].(status := StatusAfter(db.orders[o].status, step, out.result.Success?, o))
  {
    if step.Batch? { ReceiveAllKeepsOrders(db, db, step.inventory, step.inbounds); }
  }

  /** The orders a successful call adds: as requested, outbound and pending by default. */
  function Added(step: Step): seq<Order> {
    match step
    case CreateOrder(req) =>
      [Order(req.inventory, if req.kind.Some? then req.kind.value else "outbound",
             if req.status.Some? then req.status.value else "pending", req.items, req.source)]
    case Convert(id, inventory, items) => [Order(inventory, "outbound", "pending", items, Some(id))]
    case _ => []
  }

  lemma StepAddsOrders(db: Tables, step: Step)
    ensures var out := Next(db, step);
            && |out.db.orders| >= |db.orders|
            && out.db.orders[|db.orders|..] == if out.result.Success? then Added(step) else []
  {
    if step.Batch? { ReceiveAllKeepsOrders(db, db, step.inventory, step.inbounds); }
  }

  /** The order exists and is still to be settled. */
  predicate Standing(db: Tables, o: Id) {
    o < |db.orders| && (db.orders[o].status == "pending" || db.orders[o].status == "reserved")
  }

  function Answer(db: Tables, o: Id, accepted: bool): Result<Id, Error> {
    if o >= |db.orders| then Failure(NoRows) else if accepted then Success(o) else Failure(InvalidOrderStatus)
  }

  /** Any standing order can be confirmed or cancelled; only a reserve order can be taken back as such. */
  lemma SettlingAnswers(db: Tables, o: Id)
    ensures Next(db, Confirm(o)).result == Answer(db, o, Standing(db, o))
    ensures Next(db, Cancel(o)).result == Answer(db, o, Standing(db, o))
    ensures Next(db, Unreserve(o)).result == Answer(db, o, Standing(db, o) && db.orders[o].kind == "reserve")
  {
  }

  /** Free stock once order `o` has given its own back. */
  function FreeWithout(db: Tables, o: Id, id: Id): int
    requires o < |db.orders| && id in db.products
  {
    db.products[id].quantity - db.products[id].reserved + Demand(db.orders[o].items, id)
  }

  /** The first item that does not fit together with those before it. */
  ghost predicate FirstUnfit(products: map<Id, Product>, items: seq<Item>, i: nat) {
    i < |items| && Fits(products, items[..i]) && !Fits(products, items[..i + 1])
  }

  function ShortOf(products: map<Id, Product>, item: Item): Error {
    if item.product in products then InsufficientStock else NoRows
  }

  /** Creating an order fails on the first item that does not fit, and the error says why. */
  lemma CreateAnswers(db: Tables, req: OrderReq)
    requires NonNegative(req.items)
    ensures var r := Next(db, CreateOrder(req)).result;
            && (r.Success? <==> Fits(db.products, req.items))
            && (r.Success? ==> r.value == |db.orders|)
            && (r.Failure? ==>
                  exists i: nat ::
                    FirstUnfit(db.products, req.items, i) && r.error == ShortOf(db.products, req.items[i]))
  {
    LockChecksTotals(db.products, req.items);
    if Lock(db.products, req.items).Failure? {
      var i := LockStops(db.products, req.items);
      assert forall k | 0 <= k < i :: req.items[..i][k] == req.items[k];
      assert forall k | 0 <= k < i + 1 :: req.items[..i + 1][k] == req.items[k];
      LockChecksTotals(db.products, req.items[..i]);
      LockChecksTotals(db.products, req.items[..i + 1]);
      assert FirstUnfit(db.products, req.items, i);
    }
  }

  /** The first `n` items fit once order `o` has given its own stock back. */
  ghost predicate FitWithout(db: Tables, o: Id, items: seq<Item>, n: nat)
    requires o < |db.orders| && n <= |items|
  {
    forall i | 0 <= i < n ::
      && items[i].product in db.products
      && Demand(items[..n], items[i].product) <= FreeWithout(db, o, items[i].product)
  }

  lemma ReleasedFits(db: Tables, o: Id, items: seq<Item>, n: nat)
    requires o < |db.orders| && n <= |items|
    ensures Fits(Apply(db.products, db.orders[o].items, Free), items[..n]) <==> FitWithout(db, o, items, n)
  {
    ApplyMovesTotals(db.products, db.orders[o].items, Free);
    assert forall k | 0 <= k < n :: items[..n][k] == items[k];
  }

  /**
   * A conversion is refused like taking the reserve back; otherwise it succeeds, with the new order's id, exactly
   * when the reserve's own stock, given back, makes room for the new items, and fails on the first that does not fit.
   */
  lemma ConvertAnswers(db: Tables, o: Id, inventory: string, items: seq<Item>)
    requires NonNegative(items)
    ensures var r := Next(db, Convert(o, inventory, items)).result;
            if !(Standing(db, o) && db.orders[o].kind == "reserve") then r == Answer(db, o, false)
            else if FitWithout(db, o, items, |items|) then r == Success(|db.orders|)
            else exists i: nat | i < |items| ::
              FitWithout(db, o, items, i) && !FitWithout(db, o, items, i + 1) &&
              r == Failure(ShortOf(db.products, items[i]))
  {
    if Standing(db, o) {
      var released := Apply(db.products, db.orders[o].items, Free);
      ApplyMovesTotals(db.products, db.orders[o].items, Free);
      assert items[..|items|] == items;
      ReleasedFits(db, o, items, |items|);
      LockChecksTotals(released, items);
      if Lock(released, items).Failure? {
        var i := LockStops(released, items);
        LockChecksTotals(released, items[..i]);
        LockChecksTotals(released, items[..i + 1]);
        ReleasedFits(db, o, items, i);
        ReleasedFits(db, o, items, i + 1);
      }
    }
  }

  lemma {:induction false} LockStops(products: map<Id, Product>, items: seq<Item>) returns (i: nat)
    requires Lock(products, items).Failure?
    ensures i < |items| && Lock(products, items[..i]).Success? && Lock(products, items[..i + 1]).Failure?
    ensures Lock(products, items).error == ShortOf(products, items[i])
    decreases |items|
  {
    var head := items[0];
    i := 0;
    if head.product in products && products[head.product].quantity - products[head.product].reserved >= head.quantity {
      var k := LockStops(AddStock(products, head.product, 0, head.quantity), items[1..]);
      i := k + 1;
      assert items[..i][1..] == items[1..][..k] && items[..i + 1][1..] == items[1..][..k + 1];
    }
  }

  // ---- Runs ---------------------------------------------------------------------------------

  /** The `i`-th call of the run confirms, or cancels, the order. */
  ghost predicate ConfirmedAt(db: Tables, steps: seq<Step>, o: Id, i: nat) {
    i < |steps| && Confirms(steps[i], o) && Next(Run(db, steps[..i]), steps[i]).result.Success?
  }

  ghost predicate CancelledAt(db: Tables, steps: seq<Step>, o: Id, i: nat) {
    i < |steps| && Cancels(steps[i], o) && Next(Run(db, steps[..i]), steps[i]).result.Success?
  }

  lemma SettledAtPrefix(db: Tables, steps: seq<Step>, o: Id, i: nat)
    requires i + 1 < |steps|
    ensures ConfirmedAt(db, steps, o, i) <==> ConfirmedAt(db, steps[..|steps| - 1], o, i)
    ensures CancelledAt(db, steps, o, i) <==> CancelledAt(db, steps[..|steps| - 1], o, i)
  {
    assert steps[..|steps| - 1][..i] == steps[..i];
  }

  /**
   * Over any run an order reads "confirmed" exactly when a call of the run confirmed or converted it, and
   * "cancelled" exactly when a call of the run cancelled it.
   */
  lemma {:induction false} StatusTellsSettlement(db: Tables, steps: seq<Step>, o: Id)
    requires AllWellFormed(steps) && (o < |db.orders| ==> Standing(db, o))
    ensures var orders := Run(db, steps).orders;
            && ((o < |orders| && orders[o].status == "confirmed") <==> exists i :: ConfirmedAt(db, steps, o, i))
            && ((o < |orders| && orders[o].status == "cancelled") <==> exists i :: CancelledAt(db, steps, o, i))
            && (o < |orders| ==> Standing(Run(db, steps), o) ||
                                 orders[o].status == "confirmed" || orders[o].status == "cancelled")
  {
    if steps != [] {
      var k := |steps| - 1;
      var before := steps[..k];
      StatusTellsSettlement(db, before, o);
      forall i: nat | i < k
        ensures ConfirmedAt(db, steps, o, i) <==> ConfirmedAt(db, before, o, i)
        ensures CancelledAt(db, steps, o, i) <==> CancelledAt(db, before, o, i)
      {
        SettledAtPrefix(db, steps, o, i);
      }
      LastStepOnStatus(Run(db, before), steps[k], o);
      if o < |Run(db, before).orders| { StepOnOrder(Run(db, before), steps[k], o); }
      assert ConfirmedAt(db, steps, o, k) <==> Confirms(steps[k], o) && Next(Run(db, before), steps[k]).result.Success?;
      assert CancelledAt(db, steps, o, k) <==> Cancels(steps[k], o) && Next(Run(db, before), steps[k]).result.Success?;
    }
  }

  lemma LastStepOnStatus(db: Tables, step: Step, o: Id)
    requires WellFormed(step)
    ensures var out := Next(db, step);
            && (out.result.Success? && (Confirms(step, o) || Cancels(step, o)) ==> Standing(db, o))
            && (|db.orders| <= o < |out.db.orders| ==> Standing(out.db, o))
  {
    StepAddsOrders(db, step);
    if |db.orders| <= o < |Next(db, step).db.orders| {
      assert Next(db, step).db.orders[o] == Next(db, step).db.orders[|db.orders|..][o - |db.orders|];
    }
  }

  // ---- Product rows -----------------------------------------------------------------------------

  /** Rows stay, with their identity. */
  ghost predicate KeepsRow(before: map<Id, Product>, after: map<Id, Product>, id: Id) {
    id in before ==>
      id in after &&
      after[id] == before[id].(quantity := after[id].quantity, reserved := after[id].reserved)
  }

  lemma {:induction false} ReceiveAllKeepsRow(committed: Tables, db: Tables, inventory: string,
                                              reqs: seq<InboundReq>, id: Id)
    requires id < db.nextProduct
    ensures KeepsRow(db.products, ReceiveAll(committed, db, inventory, reqs).products, id)
    decreases |reqs|
  {
    if reqs != [] {
      ReceiveAllKeepsRow(committed, Receive(committed, db, inventory, reqs[0]), inventory, reqs[1..], id);
    }
  }

  /** A row goes only by being removed itself, and no call changes more of it than its two quantities. */
  lemma StepOnRow(db: Tables, step: Step, id: Id)
    requires IdsIssued(db) && id in db.products
    ensures id !in Next(db, step).db.products <==> step == RemoveProduct(id)
    ensures step != RemoveProduct(id) ==> KeepsRow(db.products, Next(db, step).db.products, id)
  {
    match step
    case Batch(inventory, reqs) => ReceiveAllKeepsRow(db, db, inventory, reqs, id);
    case Inbound(_, _) =>
    case NewProductStep(_, _) =>
    case RemoveProduct(_) =>
    case _ => OrderStepsKeepIdentities(db, step);
  }

  /** Imports and removals name their missing products; a batch counts its items and a new product gets the next row. */
  lemma RowAnswers(db: Tables, items: seq<Item>, id: Id, inventory: string, reqs: seq<InboundReq>)
    ensures Next(db, Batch(inventory, reqs)).result == Success(|reqs|)
    ensures reqs != [] ==> Next(db, NewProductStep(inventory, reqs[0])).result == Success(db.nextProduct)
    ensures Next(db, SearchImport(items)).result ==
            if forall i | 0 <= i < |items| :: items[i].product in db.products then Success(|items|)
            else Failure(ProductNotFound)
    ensures Next(db, RemoveProduct(id)).result == if id in db.products then Success(id) else Failure(ProductNotFound)
  {
    ImportSucceedsIff(db.products, items);
  }

  lemma {:induction false} ImportSucceedsIff(products: map<Id, Product>, items: seq<Item>)
    ensures Import(products, items).Success? <==> forall i | 0 <= i < |items| :: items[i].product in products
    ensures Import(products, items).Failure? ==> Import(products, items).error == ProductNotFound
  {
    if items != [] && items[0].product in products {
      ImportSucceedsIff(AddStock(products, items[0].product, items[0].quantity, 0), items[1..]);
      assert items == [items[0]] + items[1..];
    }
  }
}
