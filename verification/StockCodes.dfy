/** Product codes over runs: which calls can put two products under one code. */
module StockCodes {
  import opened Prelude
  import opened StockTables
  import opened StockLedger
  import ProductCode

  /** At most one product per code in each inventory. */
  ghost predicate UniqueCodes(db: Tables) {
    forall p, q | p in db.products && q in db.products &&
      db.products[p].inventory == db.products[q].inventory && db.products[p].code == db.products[q].code :: p == q
  }

  /** Every product carries the code of its own fields, and its zones are dash-free. */
  ghost predicate CodedProducts(db: Tables) {
    forall p | p in db.products ::
      && ProductCode.DashFree(db.products[p].mainZone) && ProductCode.DashFree(db.products[p].subZone)
      && db.products[p].code == ProductCode.Code(db.products[p].mainZone, db.products[p].subZone,
                                                 db.products[p].seqNumber, db.products[p].statusCode)
  }

  predicate DashFreeReq(req: InboundReq) {
    ProductCode.DashFree(req.mainZone) && ProductCode.DashFree(req.subZone)
  }

  function Codes(reqs: seq<InboundReq>): (codes: seq<string>)
    ensures |codes| == |reqs|
  {
    if reqs == [] then [] else Codes(reqs[..|reqs| - 1]) + [ReqCode(reqs[|reqs| - 1])]
  }

  /** Item `j` shares its code with an earlier item of the batch, and no stored product has that code. */
  predicate RepeatsNewCodeAt(db: Tables, inventory: string, codes: seq<string>, j: nat) {
    j < |codes| && codes[j] in codes[..j] && !CodeKnown(db, inventory, codes[j])
  }

  ghost predicate RepeatsNewCode(db: Tables, inventory: string, codes: seq<string>) {
    exists j: nat :: RepeatsNewCodeAt(db, inventory, codes, j)
  }

  function ReceiveEach(db: Tables, inventory: string, reqs: seq<InboundReq>): Tables {
    if reqs == [] then db else
      var before := ReceiveEach(db, inventory, reqs[..|reqs| - 1]);
      InboundSingle(before, inventory, reqs[|reqs| - 1]).db
  }

  /** The batch loop, seen from its last item. */
  lemma {:induction false} ReceiveAllLast(committed: Tables, db: Tables, inventory: string, reqs: seq<InboundReq>)
    requires reqs != []
    ensures ReceiveAll(committed, db, inventory, reqs) ==
            Receive(committed, ReceiveAll(committed, db, inventory, reqs[..|reqs| - 1]), inventory, reqs[|reqs| - 1])
    decreases |reqs|
  {
    if |reqs| > 1 {
      var next := Receive(committed, db, inventory, reqs[0]);
      ReceiveAllLast(committed, next, inventory, reqs[1..]);
      MiddlePart(reqs);
    }
  }

  lemma MiddlePart<T>(s: seq<T>)
    requires |s| > 1
    ensures s[1..][..|s[1..]| - 1] == s[..|s| - 1][1..]
    ensures s[1..] != [] && s[..|s| - 1] != [] && s[..|s| - 1][0] == s[0] && s[1..][|s[1..]| - 1] == s[|s| - 1]
  {
  }

  ghost predicate IdsIssued(db: Tables) {
    forall p | p in db.products :: p < db.nextProduct
  }

  /** One by one, known codes keep their row, and exactly the received codes become known. */
  lemma {:induction false} KnownAfterEach(db: Tables, inventory: string, reqs: seq<InboundReq>, code: string)
    requires IdsIssued(db)
    ensures IdsIssued(ReceiveEach(db, inventory, reqs))
    ensures Lookup(ReceiveEach(db, inventory, reqs), inventory, code).Some? <==>
            Lookup(db, inventory, code).Some? || code in Codes(reqs)
    ensures Lookup(db, inventory, code).Some? ==>
            Lookup(ReceiveEach(db, inventory, reqs), inventory, code) == Lookup(db, inventory, code)
  {
    if reqs != [] {
      KnownAfterEach(db, inventory, reqs[..|reqs| - 1], code);
      KnownAfterReceive(ReceiveEach(db, inventory, reqs[..|reqs| - 1]), inventory, reqs[|reqs| - 1], code);
    }
  }

  lemma KnownAfterReceive(db: Tables, inventory: string, req: InboundReq, code: string)
    requires IdsIssued(db)
    ensures IdsIssued(Receive(db, db, inventory, req))
    ensures Lookup(Receive(db, db, inventory, req), inventory, code).Some? <==>
            Lookup(db, inventory, code).Some? || code == ReqCode(req)
    ensures Lookup(db, inventory, code).Some? ==>
            Lookup(Receive(db, db, inventory, req), inventory, code) == Lookup(db, inventory, code)
  {
    var db' := Receive(db, db, inventory, req);
    var found := Lookup(db, inventory, code);
    assert forall p: Id :: Matches(db.products, p, inventory, code) ==> Matches(db'.products, p, inventory, code);
    assert forall p: Id :: Matches(db'.products, p, inventory, code) ==>
      Matches(db.products, p, inventory, code) || (p == db.nextProduct && code == ReqCode(req));
    if code == ReqCode(req) && found.None? {
      assert Matches(db'.products, db.nextProduct, inventory, code);
    }
    if found.Some? {
      assert Matches(db'.products, found.value, inventory, code);
    }
  }

  lemma RepeatsLast(db: Tables, inventory: string, codes: seq<string>)
    requires codes != []
    ensures RepeatsNewCode(db, inventory, codes) <==>
            RepeatsNewCode(db, inventory, codes[..|codes| - 1]) || RepeatsNewCodeAt(db, inventory, codes, |codes| - 1)
  {
    var before := codes[..|codes| - 1];
    forall j: nat | j < |before|
      ensures RepeatsNewCodeAt(db, inventory, before, j) <==> RepeatsNewCodeAt(db, inventory, codes, j)
    {
      assert before[..j] == codes[..j];
    }
    if RepeatsNewCode(db, inventory, before) {
      var j: nat :| RepeatsNewCodeAt(db, inventory, before, j);
      assert RepeatsNewCodeAt(db, inventory, codes, j);
    }
  }

  /** A batch creates at least as many products as the same items one by one, and more if a new code is repeated. */
  lemma {:induction false} BatchAgainstSingles(db: Tables, inventory: string, reqs: seq<InboundReq>)
    requires IdsIssued(db)
    ensures ReceiveAll(db, db, inventory, reqs).nextProduct >= ReceiveEach(db, inventory, reqs).nextProduct
    ensures RepeatsNewCode(db, inventory, Codes(reqs)) ==>
              ReceiveAll(db, db, inventory, reqs).nextProduct > ReceiveEach(db, inventory, reqs).nextProduct
    ensures !RepeatsNewCode(db, inventory, Codes(reqs)) ==>
              ReceiveAll(db, db, inventory, reqs) == ReceiveEach(db, inventory, reqs)
  {
    if reqs != [] {
      BatchAgainstSingles(db, inventory, reqs[..|reqs| - 1]);
      ReceiveAllLast(db, db, inventory, reqs);
      RepeatsLast(db, inventory, Codes(reqs));
      assert Codes(reqs)[..|reqs| - 1] == Codes(reqs[..|reqs| - 1]);
      KnownAfterEach(db, inventory, reqs[..|reqs| - 1], ReqCode(reqs[|reqs| - 1]));
    }
  }

  /** A batch has the effect of its items received one by one exactly when it repeats no new code. */
  lemma BatchEqualsSinglesIff(db: Tables, inventory: string, reqs: seq<InboundReq>)
    requires IdsIssued(db)
    ensures InboundBatch(db, inventory, reqs).db == ReceiveEach(db, inventory, reqs) <==>
            !RepeatsNewCode(db, inventory, Codes(reqs))
  {
    BatchAgainstSingles(db, inventory, reqs);
  }

  lemma InsertKeepsCodesIff(db: Tables, inventory: string, req: InboundReq)
    requires IdsIssued(db) && UniqueCodes(db)
    ensures UniqueCodes(Insert(db, inventory, req)) <==> !CodeKnown(db, inventory, ReqCode(req))
  {
    var db' := Insert(db, inventory, req);
    var found := FindByCode(db.products, inventory, ReqCode(req), db.nextProduct);
    if found.Some? {
      assert found.value in db'.products && db.nextProduct in db'.products;
      assert db'.products[found.value].code == db'.products[db.nextProduct].code;
    } else {
      forall p | p in db.products
        ensures !(db.products[p].inventory == inventory && db.products[p].code == ReqCode(req))
      {
        assert !Matches(db.products, p, inventory, ReqCode(req));
      }
    }
  }

  /** Receiving items one by one never makes two products with one code. */
  lemma {:induction false} SinglesKeepCodesUnique(db: Tables, inventory: string, reqs: seq<InboundReq>)
    requires IdsIssued(db) && UniqueCodes(db)
    ensures IdsIssued(ReceiveEach(db, inventory, reqs)) && UniqueCodes(ReceiveEach(db, inventory, reqs))
  {
    if reqs != [] {
      var before := ReceiveEach(db, inventory, reqs[..|reqs| - 1]);
      SinglesKeepCodesUnique(db, inventory, reqs[..|reqs| - 1]);
      InsertKeepsCodesIff(before, inventory, reqs[|reqs| - 1]);
    }
  }

  /** The row that holds a request's tuple. */
  ghost predicate HasTuple(p: Product, inventory: string, req: InboundReq) {
    && p.inventory == inventory && p.mainZone == req.mainZone && p.subZone == req.subZone
    && p.seqNumber == req.seqNumber && p.statusCode == req.statusCode
  }

  /**
   * An inbound item adds to a stored row exactly when that row holds its (main, sub, sequence, status)
   * tuple in its inventory; otherwise it creates a row that does.
   */
  lemma InboundFindsTuple(db: Tables, inventory: string, req: InboundReq)
    requires IdsIssued(db) && CodedProducts(db) && DashFreeReq(req)
    ensures Lookup(db, inventory, ReqCode(req)).Some? <==>
            exists p | p in db.products :: HasTuple(db.products[p], inventory, req)
    ensures var out := InboundSingle(db, inventory, req);
            && out.result.Success? && out.result.value in out.db.products
            && HasTuple(out.db.products[out.result.value], inventory, req)
            && out.db.products - {out.result.value} == db.products - {out.result.value}
            && CodedProducts(out.db)
  {
    forall p | p in db.products
      ensures Matches(db.products, p, inventory, ReqCode(req)) <==> HasTuple(db.products[p], inventory, req)
    {
      var q := db.products[p];
      ProductCode.CodeIdentity(q.mainZone, q.subZone, q.seqNumber, q.statusCode,
                               req.mainZone, req.subZone, req.seqNumber, req.statusCode);
    }
  }

  // ---- Every call ---------------------------------------------------------------------

  /** Same rows, equal in everything but their quantities. */
  ghost predicate SameIdentities(before: map<Id, Product>, after: map<Id, Product>) {
    after.Keys == before.Keys &&
    forall id | id in before :: after[id] == before[id].(quantity := after[id].quantity, reserved := after[id].reserved)
  }

  lemma {:induction false} ApplyKeepsIdentities(products: map<Id, Product>, items: seq<Item>, move: Move)
    ensures SameIdentities(products, Apply(products, items, move))
  {
    ApplyMovesTotals(products, items, move);
  }

  lemma LockKeepsIdentities(products: map<Id, Product>, items: seq<Item>)
    requires Lock(products, items).Success?
    ensures SameIdentities(products, Lock(products, items).value)
  {
    LockIsApply(products, items);
    ApplyKeepsIdentities(products, items, Hold);
  }

  lemma {:induction false} ImportKeepsIdentities(products: map<Id, Product>, items: seq<Item>)
    requires Import(products, items).Success?
    ensures SameIdentities(products, Import(products, items).value)
  {
    if items != [] {
      ImportKeepsIdentities(AddStock(products, items[0].product, items[0].quantity, 0), items[1..]);
    }
  }

  lemma SameIdentitiesKeepCodes(db: Tables, db': Tables)
    requires UniqueCodes(db) && SameIdentities(db.products, db'.products)
    ensures UniqueCodes(db')
  {
  }

  /** Order calls and imports change no row's identity. */
  lemma OrderStepsKeepIdentities(db: Tables, step: Step)
    requires step.CreateOrder? || step.Confirm? || step.Cancel? || step.Unreserve? ||
             step.Convert? || step.SearchImport?
    ensures SameIdentities(db.products, Next(db, step).db.products)
  {
    match step
    case CreateOrder(req) => if Lock(db.products, req.items).Success? { LockKeepsIdentities(db.products, req.items); }
    case Confirm(o) => if o < |db.orders| { ApplyKeepsIdentities(db.products, db.orders[o].items, Ship); }
    case Cancel(o) => if o < |db.orders| { ApplyKeepsIdentities(db.products, db.orders[o].items, Free); }
    case Unreserve(o) => if o < |db.orders| { ApplyKeepsIdentities(db.products, db.orders[o].items, Free); }
    case Convert(o, inventory, items) =>
      if o < |db.orders| {
        var released := Apply(db.products, db.orders[o].items, Free);
        ApplyKeepsIdentities(db.products, db.orders[o].items, Free);
        if Lock(released, items).Success? { LockKeepsIdentities(released, items); }
      }
    case SearchImport(items) => if Import(db.products, items).Success? { ImportKeepsIdentities(db.products, items); }
  }

  lemma OrderStepsKeepCodes(db: Tables, step: Step)
    requires step.CreateOrder? || step.Confirm? || step.Cancel? || step.Unreserve? ||
             step.Convert? || step.SearchImport?
    requires IdsIssued(db) && UniqueCodes(db)
    ensures IdsIssued(Next(db, step).db) && UniqueCodes(Next(db, step).db)
  {
    OrderStepsKeepIdentities(db, step);
    SameIdentitiesKeepCodes(db, Next(db, step).db);
    assert Next(db, step).db.nextProduct == db.nextProduct;
  }

  /** How many rows a batch with these codes creates: one for each code no stored product has. */
  function NewRows(db: Tables, inventory: string, codes: seq<string>): nat {
    if codes == [] then 0
    else NewRows(db, inventory, codes[..|codes| - 1]) + (if CodeKnown(db, inventory, codes[|codes| - 1]) then 0 else 1)
  }

  lemma {:induction false} NewRowsGrow(db: Tables, inventory: string, codes: seq<string>, i: nat, j: nat)
    requires i < j <= |codes| && !CodeKnown(db, inventory, codes[i])
    ensures NewRows(db, inventory, codes[..i]) < NewRows(db, inventory, codes[..j])
    decreases j
  {
    assert codes[..j][..j - 1] == codes[..j - 1];
    if i < j - 1 {
      NewRowsGrow(db, inventory, codes, i, j - 1);
    }
  }

  /** Row `id` holds a product of this inventory and code. */
  ghost predicate RowHas(db: Tables, id: Id, inventory: string, code: string) {
    id in db.products && db.products[id].inventory == inventory && db.products[id].code == code
  }

  /** One item of a batch: rows keep their identity, and a new code gets the next row. */
  ghost predicate Extends(committed: Tables, before: Tables, after: Tables, inventory: string, code: string) {
    && IdsIssued(after)
    && (forall id, inv, c | RowHas(before, id, inv, c) :: RowHas(after, id, inv, c))
    && after.nextProduct == before.nextProduct + (if CodeKnown(committed, inventory, code) then 0 else 1)
    && (!CodeKnown(committed, inventory, code) ==> RowHas(after, before.nextProduct, inventory, code))
  }

  lemma ReceiveExtends(committed: Tables, db: Tables, inventory: string, req: InboundReq)
    requires IdsIssued(db)
    ensures Extends(committed, db, Receive(committed, db, inventory, req), inventory, ReqCode(req))
  {
  }

  /** The row a batch inserts for its `i`-th item, if the code is new. */
  ghost predicate HasRowFor(db: Tables, after: Tables, inventory: string, codes: seq<string>, i: nat) {
    i < |codes| && !CodeKnown(db, inventory, codes[i]) ==>
      RowHas(after, db.nextProduct + NewRows(db, inventory, codes[..i]), inventory, codes[i])
  }

  lemma HasRowForNext(db: Tables, before: Tables, after: Tables, inventory: string, codes: seq<string>, i: nat)
    requires codes != [] && HasRowFor(db, before, inventory, codes[..|codes| - 1], i)
    requires before.nextProduct == db.nextProduct + NewRows(db, inventory, codes[..|codes| - 1])
    requires Extends(db, before, after, inventory, codes[|codes| - 1])
    ensures HasRowFor(db, after, inventory, codes, i)
  {
    var k := |codes| - 1;
    if i < k {
      assert codes[..k][..i] == codes[..i];
    }
  }

  /** A batch inserts a row of its own for every item with a new code, in order. */
  lemma {:induction false} BatchInsertsRows(db: Tables, inventory: string, reqs: seq<InboundReq>, i: nat)
    requires IdsIssued(db)
    ensures ReceiveAll(db, db, inventory, reqs).nextProduct == db.nextProduct + NewRows(db, inventory, Codes(reqs))
    ensures IdsIssued(ReceiveAll(db, db, inventory, reqs))
    ensures HasRowFor(db, ReceiveAll(db, db, inventory, reqs), inventory, Codes(reqs), i)
  {
    if reqs != [] {
      var k, codes := |reqs| - 1, Codes(reqs);
      var before := ReceiveAll(db, db, inventory, reqs[..k]);
      assert codes[..k] == Codes(reqs[..k]);
      BatchInsertsRows(db, inventory, reqs[..k], i);
      ReceiveAllLast(db, db, inventory, reqs);
      ReceiveExtends(db, before, inventory, reqs[k]);
      HasRowForNext(db, before, ReceiveAll(db, db, inventory, reqs), inventory, codes, i);
    }
  }

  lemma BatchKeepsCodesIff(db: Tables, inventory: string, reqs: seq<InboundReq>)
    requires IdsIssued(db) && UniqueCodes(db)
    ensures UniqueCodes(ReceiveAll(db, db, inventory, reqs)) <==> !RepeatsNewCode(db, inventory, Codes(reqs))
  {
    var codes := Codes(reqs);
    BatchAgainstSingles(db, inventory, reqs);
    SinglesKeepCodesUnique(db, inventory, reqs);
    if RepeatsNewCode(db, inventory, codes) {
      var j: nat :| RepeatsNewCodeAt(db, inventory, codes, j);
      var i :| 0 <= i < j && codes[i] == codes[j];
      BatchInsertsRows(db, inventory, reqs, i);
      BatchInsertsRows(db, inventory, reqs, j);
      NewRowsGrow(db, inventory, codes, i, j);
    }
  }

  /** The calls that can put a second product under a stored code, and when they do. */
  ghost predicate KeepsCodes(db: Tables, step: Step) {
    match step
    case NewProductStep(inventory, req) => !CodeKnown(db, inventory, ReqCode(req))
    case Batch(inventory, reqs) => !RepeatsNewCode(db, inventory, Codes(reqs))
    case _ => true
  }

  /**
   * A call keeps at most one product per code in each inventory unless it creates a product by hand
   * under a stored code, or is a batch that repeats a new code; in those two cases it never does.
   */
  lemma StepKeepsCodesIff(db: Tables, step: Step)
    requires IdsIssued(db) && UniqueCodes(db)
    ensures UniqueCodes(Next(db, step).db) <==> KeepsCodes(db, step)
    ensures IdsIssued(Next(db, step).db)
  {
    match step
    case Inbound(inventory, req) => InsertKeepsCodesIff(db, inventory, req);
    case Batch(inventory, reqs) =>
      BatchKeepsCodesIff(db, inventory, reqs);
      BatchInsertsRows(db, inventory, reqs, 0);
    case NewProductStep(inventory, req) => InsertKeepsCodesIff(db, inventory, req);
    case RemoveProduct(id) =>
    case _ => OrderStepsKeepCodes(db, step);
  }

  ghost predicate AllKeepCodes(db: Tables, steps: seq<Step>) {
    forall i | 0 <= i < |steps| :: KeepsCodes(Run(db, steps[..i]), steps[i])
  }

  /** Over any run without those two kinds of calls, every inventory has at most one product per code. */
  lemma {:induction false} CodesStayUnique(db: Tables, steps: seq<Step>)
    requires IdsIssued(db) && UniqueCodes(db) && AllKeepCodes(db, steps)
    ensures IdsIssued(Run(db, steps)) && UniqueCodes(Run(db, steps))
  {
    if steps != [] {
      var before := steps[..|steps| - 1];
      assert AllKeepCodes(db, before) by {
        forall i | 0 <= i < |before| ensures KeepsCodes(Run(db, before[..i]), before[i]) {
          assert before[..i] == steps[..i] && before[i] == steps[i];
        }
      }
      CodesStayUnique(db, before);
      assert KeepsCodes(Run(db, steps[..|steps| - 1]), steps[|steps| - 1]);
      StepKeepsCodesIff(Run(db, before), steps[|steps| - 1]);
    }
  }
}
