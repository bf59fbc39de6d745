/** Products and the sequence allocator together: when a number handed out is carried by no stored product. */
module ZoneNumbers {
  import opened Prelude
  import opened StockTables
  import opened StockCodes
  import opened SeqAllocator

  /** The product tables, and everything the allocator has done. */
  datatype Joint = Joint(db: Tables, ops: seq<Op>)

  /** A service call on the tables (deleting a product may fail to recycle its number), or AllocateSeq. */
  datatype Event = Call(step: Step, recycleFails: bool) | Ask(zone: Zone, popFails: bool)

  function ZoneOf(p: Product): Zone {
    Zone(p.inventory, p.mainZone, p.subZone)
  }

  function ReqZone(inventory: string, req: InboundReq): Zone {
    Zone(inventory, req.mainZone, req.subZone)
  }

  function Follow(j: Joint, e: Event): Joint {
    match e
    case Ask(zone, popFails) => j.(ops := j.ops + [AllocateOp(zone, popFails)])
    case Call(step, recycleFails) =>
      Joint(Next(j.db, step).db,
            if step.RemoveProduct? && step.id in j.db.products && !recycleFails
            then j.ops + [RecycleOp(ZoneOf(j.db.products[step.id]), j.db.products[step.id].seqNumber)]
            else j.ops)
  }

  function FollowAll(j: Joint, events: seq<Event>): Joint {
    if events == [] then j else Follow(FollowAll(j, events[..|events| - 1]), events[|events| - 1])
  }

  /** A number the allocator may still hand out: recycled, or beyond the counter. */
  ghost predicate Available(p: Pool, n: int) {
    n in p.recycled || n > p.max
  }

  ghost predicate AvailableIn(ops: seq<Op>, zone: Zone, n: int) {
    Available(PoolAfter(ops, zone), n)
  }

  /** No stored product carries a number that is available in its zone. */
  ghost predicate ClearRows(products: map<Id, Product>, ops: seq<Op>) {
    forall id | id in products :: !AvailableIn(ops, ZoneOf(products[id]), products[id].seqNumber)
  }

  ghost predicate Clear(j: Joint) {
    ClearRows(j.db.products, j.ops)
  }

  ghost predicate Carried(products: map<Id, Product>, zone: Zone, n: int) {
    exists id :: id in products && ZoneOf(products[id]) == zone && products[id].seqNumber == n
  }

  // ---- One event -----------------------------------------------------------------------------

  lemma PoolAfterLast(ops: seq<Op>, op: Op, zone: Zone)
    ensures PoolAfter(ops + [op], zone) ==
            if op.zone == zone then PoolStep(PoolAfter(ops, zone), op) else PoolAfter(ops, zone)
  {
    assert (ops + [op])[..|ops|] == ops;
  }

  lemma AskKeepsClear(products: map<Id, Product>, ops: seq<Op>, zone: Zone, popFails: bool)
    requires ClearRows(products, ops)
    ensures ClearRows(products, ops + [AllocateOp(zone, popFails)])
  {
    forall id | id in products
      ensures !AvailableIn(ops + [AllocateOp(zone, popFails)], ZoneOf(products[id]), products[id].seqNumber)
    {
      PoolAfterLast(ops, AllocateOp(zone, popFails), ZoneOf(products[id]));
      assert !AvailableIn(ops, ZoneOf(products[id]), products[id].seqNumber);
    }
  }

  /** Two rows of one zone with one number, under different status codes for instance. */
  predicate SameNumber(p: Product, q: Product) {
    ZoneOf(p) == ZoneOf(q) && p.seqNumber == q.seqNumber
  }

  /** No other row carries the number of row `id`. */
  ghost predicate Alone(products: map<Id, Product>, id: Id)
    requires id in products
  {
    forall q | q in products && q != id :: !SameNumber(products[q], products[id])
  }

  lemma RemoveKeepsClearIff(products: map<Id, Product>, ops: seq<Op>, id: Id)
    requires ClearRows(products, ops) && id in products
    ensures ClearRows(products - {id}, ops + [RecycleOp(ZoneOf(products[id]), products[id].seqNumber)]) <==>
            Alone(products, id)
  {
    var p := products[id];
    var op := RecycleOp(ZoneOf(p), p.seqNumber);
    var rest := products - {id};
    forall q | q in rest
      ensures AvailableIn(ops + [op], ZoneOf(rest[q]), rest[q].seqNumber) <==> SameNumber(products[q], p)
    {
      PoolAfterLast(ops, op, ZoneOf(rest[q]));
      assert !AvailableIn(ops, ZoneOf(products[q]), products[q].seqNumber);
    }
    if ClearRows(rest, ops + [op]) {
      forall q | q in products && q != id ensures !SameNumber(products[q], p) {
        assert q in rest;
      }
    }
  }

  lemma InsertKeepsClearIff(db: Tables, ops: seq<Op>, inventory: string, req: InboundReq)
    requires IdsIssued(db) && ClearRows(db.products, ops)
    ensures ClearRows(Insert(db, inventory, req).products, ops) <==>
            !AvailableIn(ops, ReqZone(inventory, req), req.seqNumber)
  {
    var after := Insert(db, inventory, req).products;
    assert after[db.nextProduct] == NewProduct(inventory, req);
    assert forall id | id in db.products :: id != db.nextProduct && after[id] == db.products[id];
  }

  lemma SameIdentitiesKeepClear(before: map<Id, Product>, after: map<Id, Product>, ops: seq<Op>)
    requires SameIdentities(before, after)
    ensures ClearRows(before, ops) <==> ClearRows(after, ops)
  {
  }

  /** The item stores its number where the code is known, or asks for a number that is not available. */
  ghost predicate Settled(committed: Tables, ops: seq<Op>, inventory: string, req: InboundReq) {
    CodeKnown(committed, inventory, ReqCode(req)) || !AvailableIn(ops, ReqZone(inventory, req), req.seqNumber)
  }

  lemma ReceiveKeepsClearIff(committed: Tables, db: Tables, ops: seq<Op>, inventory: string, req: InboundReq)
    requires IdsIssued(db) && ClearRows(db.products, ops)
    ensures IdsIssued(Receive(committed, db, inventory, req))
    ensures ClearRows(Receive(committed, db, inventory, req).products, ops) <==> Settled(committed, ops, inventory, req)
  {
    if CodeKnown(committed, inventory, ReqCode(req)) {
      SameIdentitiesKeepClear(db.products, Receive(committed, db, inventory, req).products, ops);
    } else {
      InsertKeepsClearIff(db, ops, inventory, req);
    }
  }

  lemma ReceiveKeepsUnclear(committed: Tables, db: Tables, ops: seq<Op>, inventory: string, req: InboundReq)
    requires IdsIssued(db) && !ClearRows(db.products, ops)
    ensures IdsIssued(Receive(committed, db, inventory, req)) &&
            !ClearRows(Receive(committed, db, inventory, req).products, ops)
  {
    var after := Receive(committed, db, inventory, req).products;
    var id :| id in db.products && AvailableIn(ops, ZoneOf(db.products[id]), db.products[id].seqNumber);
    assert id in after && AvailableIn(ops, ZoneOf(after[id]), after[id].seqNumber);
  }

  ghost predicate AllSettled(committed: Tables, ops: seq<Op>, inventory: string, reqs: seq<InboundReq>) {
    forall i | 0 <= i < |reqs| :: Settled(committed, ops, inventory, reqs[i])
  }

  lemma {:induction false} BatchKeepsClearIff(committed: Tables, db: Tables, ops: seq<Op>, inventory: string,
                                              reqs: seq<InboundReq>)
    requires IdsIssued(db)
    ensures IdsIssued(ReceiveAll(committed, db, inventory, reqs))
    ensures ClearRows(ReceiveAll(committed, db, inventory, reqs).products, ops) <==>
            ClearRows(db.products, ops) && AllSettled(committed, ops, inventory, reqs)
    decreases |reqs|
  {
    if reqs != [] {
      var next := Receive(committed, db, inventory, reqs[0]);
      if ClearRows(db.products, ops) {
        ReceiveKeepsClearIff(committed, db, ops, inventory, reqs[0]);
      } else {
        ReceiveKeepsUnclear(committed, db, ops, inventory, reqs[0]);
      }
      BatchKeepsClearIff(committed, next, ops, inventory, reqs[1..]);
      AllSettledCons(committed, ops, inventory, reqs);
    }
  }

  lemma AllSettledCons(committed: Tables, ops: seq<Op>, inventory: string, reqs: seq<InboundReq>)
    requires reqs != []
    ensures AllSettled(committed, ops, inventory, reqs) <==>
            Settled(committed, ops, inventory, reqs[0]) && AllSettled(committed, ops, inventory, reqs[1..])
  {
    assert reqs == [reqs[0]] + reqs[1..];
  }

  /**
   * What a call has to respect: numbers of new rows were handed out, and a deleted row shares its number
   * with no other.
   */
  ghost predicate Keeps(j: Joint, e: Event) {
    match e
    case Ask(_, _) => true
    case Call(step, recycleFails) =>
      match step
      case Inbound(inventory, req) => Settled(j.db, j.ops, inventory, req)
      case Batch(inventory, reqs) => AllSettled(j.db, j.ops, inventory, reqs)
      case NewProductStep(inventory, req) => !AvailableIn(j.ops, ReqZone(inventory, req), req.seqNumber)
      case RemoveProduct(id) => id in j.db.products && !recycleFails ==> Alone(j.db.products, id)
      case _ => true
  }

  /** Calls that neither insert nor delete rows. */
  predicate KeepsRows(step: Step) {
    step.CreateOrder? || step.Confirm? || step.Cancel? || step.Unreserve? || step.Convert? || step.SearchImport?
  }

  lemma RowKeepingStep(j: Joint, step: Step, recycleFails: bool)
    requires IdsIssued(j.db) && Clear(j) && KeepsRows(step)
    ensures IdsIssued(Follow(j, Call(step, recycleFails)).db) && Clear(Follow(j, Call(step, recycleFails)))
  {
    OrderStepsKeepIdentities(j.db, step);
    SameIdentitiesKeepClear(j.db.products, Next(j.db, step).db.products, j.ops);
  }

  lemma ReceivingStep(j: Joint, step: Step, recycleFails: bool)
    requires IdsIssued(j.db) && Clear(j) && (step.Inbound? || step.Batch? || step.NewProductStep?)
    ensures IdsIssued(Follow(j, Call(step, recycleFails)).db)
    ensures Clear(Follow(j, Call(step, recycleFails))) <==> Keeps(j, Call(step, recycleFails))
  {
    match step
    case Inbound(inventory, req) => ReceiveKeepsClearIff(j.db, j.db, j.ops, inventory, req);
    case Batch(inventory, reqs) => BatchKeepsClearIff(j.db, j.db, j.ops, inventory, reqs);
    case NewProductStep(inventory, req) => InsertKeepsClearIff(j.db, j.ops, inventory, req);
  }

  /**
   * An event keeps every stored number unavailable exactly when new rows take numbers that were handed
   * out and a deleted row shared its number with no other.
   */
  lemma StepKeepsClearIff(j: Joint, e: Event)
    requires IdsIssued(j.db) && Clear(j)
    ensures IdsIssued(Follow(j, e).db)
    ensures Clear(Follow(j, e)) <==> Keeps(j, e)
  {
    match e
    case Ask(zone, popFails) => AskKeepsClear(j.db.products, j.ops, zone, popFails);
    case Call(step, recycleFails) =>
      if KeepsRows(step) {
        RowKeepingStep(j, step, recycleFails);
      } else if step.RemoveProduct? {
        if step.id in j.db.products { RemoveKeepsClearIff(j.db.products, j.ops, step.id); }
      } else {
        ReceivingStep(j, step, recycleFails);
      }
  }

  // ---- Runs, and the numbers handed out ------------------------------------------------------

  ghost predicate AllKeep(j: Joint, events: seq<Event>) {
    forall i | 0 <= i < |events| :: Keeps(FollowAll(j, events[..i]), events[i])
  }

  /** Over any run whose calls respect this, no stored product carries an available number. */
  lemma {:induction false} RunKeepsClear(j: Joint, events: seq<Event>)
    requires IdsIssued(j.db) && Clear(j) && AllKeep(j, events)
    ensures IdsIssued(FollowAll(j, events).db) && Clear(FollowAll(j, events))
  {
    if events != [] {
      var before := events[..|events| - 1];
      forall i | 0 <= i < |before| ensures Keeps(FollowAll(j, before[..i]), before[i]) {
        assert before[..i] == events[..i];
      }
      RunKeepsClear(j, before);
      StepKeepsClearIff(FollowAll(j, before), events[|events| - 1]);
    }
  }

  /** Calls of AllocateSeq, one for each entry; the entry says whether the pop of the call fails. */
  function Asks(zone: Zone, fails: seq<bool>): seq<Op> {
    if fails == [] then [] else [AllocateOp(zone, fails[0])] + Asks(zone, fails[1..])
  }

  lemma AsksCons(zone: Zone, fail: bool, fails: seq<bool>, ops: seq<Op>)
    ensures ops + Asks(zone, [fail] + fails) == ops + [AllocateOp(zone, fail)] + Asks(zone, fails)
    ensures ops + Asks(zone, []) == ops
  {
    assert ([fail] + fails)[1..] == fails;
  }

  /** Every available number is handed out after enough calls that meet no failure. */
  lemma {:induction false} EventuallyAllocated(ops: seq<Op>, zone: Zone, n: int) returns (fails: seq<bool>)
    requires AvailableIn(ops, zone, n)
    ensures Allocated(PoolAfter(ops + Asks(zone, fails), zone), false) == n && true !in fails
    decreases |PoolAfter(ops, zone).recycled| + if n > PoolAfter(ops, zone).max then n - PoolAfter(ops, zone).max else 0
  {
    var p, ask := PoolAfter(ops, zone), AllocateOp(zone, false);
    if Allocated(p, false) == n {
      fails := [];
      AsksCons(zone, false, [], ops);
    } else {
      PoolAfterLast(ops, ask, zone);
      assert Occupied(p.recycled) ==> Least(p.recycled) in p.recycled;
      var later := EventuallyAllocated(ops + [ask], zone, n);
      fails := [false] + later;
      AsksCons(zone, false, later, ops);
    }
  }

  lemma {:induction false} AsksKeepClear(products: map<Id, Product>, ops: seq<Op>, zone: Zone, fails: seq<bool>)
    requires ClearRows(products, ops)
    ensures ClearRows(products, ops + Asks(zone, fails))
    decreases |fails|
  {
    if fails == [] {
      AsksCons(zone, false, [], ops);
    } else {
      AskKeepsClear(products, ops, zone, fails[0]);
      AsksKeepClear(products, ops + [AllocateOp(zone, fails[0])], zone, fails[1..]);
      AsksCons(zone, fails[0], fails[1..], ops);
      assert fails == [fails[0]] + fails[1..];
    }
  }

  /**
   * After some calls, failing pops or not, the next call hands out a number that a stored product of the
   * zone carries.
   */
  ghost predicate HandsOutCarried(j: Joint, zone: Zone, fails: seq<bool>, popFails: bool) {
    Carried(j.db.products, zone, Allocated(PoolAfter(j.ops + Asks(zone, fails), zone), popFails))
  }

  /**
   * AllocateSeq hands out only numbers that no stored product of the zone carries, now and however often
   * it is called, whichever pops fail, exactly when no stored product carries an available number.
   */
  lemma FreshForeverIff(j: Joint)
    ensures (forall zone, fails, popFails :: !HandsOutCarried(j, zone, fails, popFails)) <==> Clear(j)
  {
    if Clear(j) {
      forall zone, fails, popFails ensures !HandsOutCarried(j, zone, fails, popFails) {
        AsksKeepClear(j.db.products, j.ops, zone, fails);
        AllocatedIsAvailable(j.ops + Asks(zone, fails), zone, popFails);
      }
    } else {
      var id :| id in j.db.products && AvailableIn(j.ops, ZoneOf(j.db.products[id]), j.db.products[id].seqNumber);
      var p := j.db.products[id];
      var fails := EventuallyAllocated(j.ops, ZoneOf(p), p.seqNumber);
      assert HandsOutCarried(j, ZoneOf(p), fails, false);
    }
  }

  lemma AllocatedIsAvailable(ops: seq<Op>, zone: Zone, popFails: bool)
    ensures AvailableIn(ops, zone, Allocated(PoolAfter(ops, zone), popFails))
  {
  }

  /** Deleting one of two products that share a number: a later call hands out the number the other one carries. */
  lemma SharedNumberIsHandedOut(j: Joint, p: Id, q: Id)
    requires IdsIssued(j.db) && Clear(j)
    requires p in j.db.products && q in j.db.products && p != q && SameNumber(j.db.products[q], j.db.products[p])
    ensures exists zone, fails, popFails ::
              HandsOutCarried(Follow(j, Call(RemoveProduct(p), false)), zone, fails, popFails)
  {
    StepKeepsClearIff(j, Call(RemoveProduct(p), false));
    FreshForeverIff(Follow(j, Call(RemoveProduct(p), false)));
  }
}
