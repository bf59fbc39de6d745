/** Copying tables between databases: a paging loop that appends batch after batch. */
module Transfer {
  import opened Prelude

  /** MySQL inserts a batch with one statement, Postgres row by row. */
  datatype Kind = MySQL | Postgres

  datatype CopyError = QueryFailed | InsertFailed | SchemaFailed | CreateFailed

  /**
   * What happens to one page query. `Refused` is an error that SelectAll reports: of the query itself
   * or of a row it cannot scan. `Broken` is a read that ends after so many rows: nobody asks the result
   * set for its error, so the loop sees a short page.
   */
  datatype PageFate = Answered | Refused | Broken(rows: nat)

  /** The destination accepts `room` more rows (None is no limit); pages without a fate are answered. */
  datatype Faults = Faults(room: Option<nat>, pages: seq<PageFate>)

  /** Destination rows, rows counted, and the error, if any. */
  datatype Copy<Row> = Copy(rows: seq<Row>, count: nat, error: Option<CopyError>)

  predicate Within(n: nat, limit: Option<nat>) {
    limit.Some? ==> n <= limit.value
  }

  function Min(a: nat, b: nat): nat {
    if a < b then a else b
  }

  function FateAt(pages: seq<PageFate>, i: nat): PageFate {
    if i < |pages| then pages[i] else Answered
  }

  function Tail(pages: seq<PageFate>): seq<PageFate> {
    if pages == [] then [] else pages[1..]
  }

  /** How many rows of a page the loop sees, with `n` rows left in the table. */
  function Seen(n: nat, size: nat, fate: PageFate): nat {
    if fate.Broken? then Min(fate.rows, Min(n, size)) else Min(n, size)
  }

  // ---- Reading a table page by page ----------------------------------------------------

  /** The rows the loop passes on before it stops, and whether it stops with a query error. */
  function Delivered(n: nat, size: nat, pages: seq<PageFate>): (r: (nat, bool))
    requires size > 0
    ensures r.0 <= n
  {
    var fate := FateAt(pages, 0);
    if fate.Refused? then (0, true)
    else if Seen(n, size, fate) < size then (Seen(n, size, fate), false)
    else
      var (k, refused) := Delivered(n - size, size, Tail(pages));
      (size + k, refused)
  }

  /** The rows left when page `i` is asked for: `n - i * size`. */
  function Left(n: int, size: nat, i: nat): int
    decreases i
  {
    if i == 0 then n else Left(n - size, size, i - 1)
  }

  lemma {:induction false} LeftIs(n: int, size: nat, i: nat)
    ensures Left(n, size, i) == n - i * size
    decreases i
  {
    if i > 0 {
      LeftIs(n - size, size, i - 1);
      assert i * size == (i - 1) * size + size;
    }
  }

  lemma {:induction false} LeftShrinks(n: int, size: nat, i: nat)
    ensures Left(n, size, i) <= n
    decreases i
  {
    if i > 0 {
      LeftShrinks(n - size, size, i - 1);
    }
  }

  /** Page `i` of the table is refused, or its read breaks before the last row of the page. */
  predicate Faulty(n: nat, size: nat, pages: seq<PageFate>, i: nat) {
    var left := Left(n, size, i);
    left >= 0 && (FateAt(pages, i).Refused? || (FateAt(pages, i).Broken? && FateAt(pages, i).rows < Min(left, size)))
  }

  ghost predicate Unbroken(n: nat, size: nat, pages: seq<PageFate>) {
    forall i: nat :: !Faulty(n, size, pages, i)
  }

  lemma NextPage(n: nat, size: nat, pages: seq<PageFate>, i: nat)
    requires 0 < size <= n
    ensures Faulty(n - size, size, Tail(pages), i) <==> Faulty(n, size, pages, i + 1)
  {
    assert FateAt(Tail(pages), i) == FateAt(pages, i + 1);
  }

  lemma NoLaterPage(n: nat, size: nat, pages: seq<PageFate>, i: nat)
    requires n < size && i > 0
    ensures !Faulty(n, size, pages, i)
  {
    LeftShrinks(n - size, size, i - 1);
  }

  ghost predicate IsFirstFault(n: nat, size: nat, pages: seq<PageFate>, i: nat) {
    Faulty(n, size, pages, i) && forall j: nat | j < i :: !Faulty(n, size, pages, j)
  }

  /** Every row is passed on, without an error, exactly when no page is refused and no read breaks early. */
  lemma {:induction false} WholeTableIff(n: nat, size: nat, pages: seq<PageFate>)
    requires size > 0
    ensures Delivered(n, size, pages) == (n, false) <==> Unbroken(n, size, pages)
  {
    if Faulty(n, size, pages, 0) {
    } else if n < size {
      forall i: nat ensures !Faulty(n, size, pages, i) {
        if i > 0 { NoLaterPage(n, size, pages, i); }
      }
    } else {
      var rest, tail := n - size, Tail(pages);
      WholeTableIff(rest, size, tail);
      forall i: nat ensures Faulty(rest, size, tail, i) ==> Faulty(n, size, pages, i + 1) {
        NextPage(n, size, pages, i);
      }
      if Unbroken(rest, size, tail) {
        forall i: nat ensures !Faulty(n, size, pages, i) {
          if i > 0 { NextPage(n, size, pages, i - 1); }
        }
      }
    }
  }

  /** The first faulty page decides: what came before it arrives, and only a refusal is an error. */
  lemma FirstFaultDecides(n: nat, size: nat, pages: seq<PageFate>, i: nat)
    requires size > 0 && IsFirstFault(n, size, pages, i)
    ensures var fate := FateAt(pages, i);
            Delivered(n, size, pages) == (i * size + (if fate.Broken? then fate.rows else 0), fate.Refused?)
  {
    DeliveredToFault(n, size, pages, i);
    LeftIs(n, size, i);
  }

  lemma {:induction false} DeliveredToFault(n: nat, size: nat, pages: seq<PageFate>, i: nat)
    requires size > 0 && IsFirstFault(n, size, pages, i)
    ensures var fate := FateAt(pages, i);
            Delivered(n, size, pages) == (n - Left(n, size, i) + (if fate.Broken? then fate.rows else 0), fate.Refused?)
    decreases i
  {
    if i > 0 {
      assert !Faulty(n, size, pages, 0);
      if n < size {
        NoLaterPage(n, size, pages, i);
      } else {
        FirstFaultMoves(n, size, pages, i);
        DeliveredToFault(n - size, size, Tail(pages), i - 1);
      }
    }
  }

  lemma FirstFaultMoves(n: nat, size: nat, pages: seq<PageFate>, i: nat)
    requires 0 < size <= n && i > 0 && IsFirstFault(n, size, pages, i)
    ensures IsFirstFault(n - size, size, Tail(pages), i - 1)
    ensures FateAt(Tail(pages), i - 1) == FateAt(pages, i)
  {
    var rest, tail := n - size, Tail(pages);
    NextPage(n, size, pages, i - 1);
    forall j: nat | j < i - 1 ensures !Faulty(rest, size, tail, j) {
      NextPage(n, size, pages, j);
    }
  }

  // ---- Copying -----------------------------------------------------------------------------

  /** The rows of the whole pages that fit. */
  function WholePages(room: nat, size: nat): (r: nat)
    requires size > 0
    ensures r <= room
  {
    if room < size then 0 else size + WholePages(room - size, size)
  }

  /** How many rows arrive: what is delivered, or what fits of it. */
  function Arrives(kind: Kind, n: nat, size: nat, faults: Faults): nat
    requires size > 0
  {
    var served := Delivered(n, size, faults.pages).0;
    if Within(served, faults.room) then served
    else if kind == Postgres then faults.room.value
    else WholePages(faults.room.value, size)
  }

  function CopyErrorOf(n: nat, size: nat, faults: Faults): Option<CopyError>
    requires size > 0
  {
    var (served, refused) := Delivered(n, size, faults.pages);
    if !Within(served, faults.room) then Some(InsertFailed) else if refused then Some(QueryFailed) else None
  }

  lemma {:induction false} WholePagesIs(room: nat, size: nat)
    requires size > 0
    ensures WholePages(room, size) == room / size * size
  {
    if room < size {
      QuotientIs(0, room, size);
    } else {
      var a, m := (room - size) / size, (room - size) % size;
      WholePagesIs(room - size, size);
      assert a * size + m == room - size;
      OneMore(a, size);
      QuotientIs(a + 1, m, size);
    }
  }

  lemma OneMore(a: int, size: int)
    ensures (a + 1) * size == a * size + size
  {
  }

  lemma QuotientIs(a: nat, m: nat, size: nat)
    requires m < size
    ensures (a * size + m) / size == a
  {
    var r := a * size + m;
    Scaled(r / size + 1, a, size);
    Scaled(a + 1, r / size, size);
  }

  lemma Scaled(a: nat, b: nat, size: nat)
    ensures a <= b ==> a * size <= b * size
  {
    if a <= b {
      assert (b - a) * size >= 0;
    }
  }

  lemma ArrivesWithin(kind: Kind, n: nat, size: nat, faults: Faults)
    requires size > 0
    ensures Arrives(kind, n, size, faults) <= n
  {
  }

  /** The insert of one page: everything, or what the kind of database keeps of a failing batch. */
  method InsertBatch<Row>(kind: Kind, rows: seq<Row>, batch: seq<Row>, room: Option<nat>)
    returns (rows': seq<Row>, ok: bool)
    ensures ok <==> Within(|batch|, room)
    ensures rows' == if ok then rows + batch else if kind == Postgres then rows + batch[..room.value] else rows
  {
    if kind == MySQL {
      if room.Some? && |batch| > room.value {
        return rows, false;
      }
      return rows + batch, true;
    }
    rows' := rows;
    var i := 0;
    while i < |batch|
      invariant 0 <= i <= |batch| && Within(i, room)
      invariant rows' == rows + batch[..i]
    {
      if room.Some? && i == room.value {
        return rows', false;
      }
      rows' := rows' + [batch[i]];
      i := i + 1;
    }
    return rows', true;
  }

  function Less(limit: Option<nat>, n: nat): Option<nat>
    requires Within(n, limit)
  {
    if limit.Some? then Some(limit.value - n) else None
  }

  /** What the faults are once a full page has been copied. */
  function AfterPage(faults: Faults, size: nat): Faults
    requires Within(size, faults.room)
  {
    Faults(Less(faults.room, size), Tail(faults.pages))
  }

  lemma RefusedPage(kind: Kind, n: nat, size: nat, faults: Faults)
    requires size > 0 && FateAt(faults.pages, 0).Refused?
    ensures Arrives(kind, n, size, faults) == 0 && CopyErrorOf(n, size, faults) == Some(QueryFailed)
  {
  }

  /** A page with too few rows is the last one. */
  lemma LastPage(kind: Kind, n: nat, size: nat, faults: Faults, k: nat)
    requires !FateAt(faults.pages, 0).Refused? && k == Seen(n, size, FateAt(faults.pages, 0)) < size
    ensures Within(k, faults.room) ==> Arrives(kind, n, size, faults) == k && CopyErrorOf(n, size, faults) == None
  {
  }

  /** A page that does not fit ends the copy. */
  lemma PageTooLong(kind: Kind, n: nat, size: nat, faults: Faults, k: nat)
    requires size > 0 && !FateAt(faults.pages, 0).Refused? && k == Seen(n, size, FateAt(faults.pages, 0))
    requires !Within(k, faults.room)
    ensures Arrives(kind, n, size, faults) == if kind == Postgres then faults.room.value else 0
    ensures CopyErrorOf(n, size, faults) == Some(InsertFailed)
  {
    assert Delivered(n, size, faults.pages).0 >= k;
  }

  /** A full page that fits adds its size to what the rest of the table brings. */
  lemma FullPage(kind: Kind, n: nat, size: nat, faults: Faults)
    requires size > 0 && !FateAt(faults.pages, 0).Refused? && size == Seen(n, size, FateAt(faults.pages, 0))
    requires Within(size, faults.room)
    ensures Arrives(kind, n, size, faults) == size + Arrives(kind, n - size, size, AfterPage(faults, size))
    ensures CopyErrorOf(n, size, faults) == CopyErrorOf(n - size, size, AfterPage(faults, size))
  {
    var rest := Delivered(n - size, size, Tail(faults.pages));
    assert Delivered(n, size, faults.pages) == (size + rest.0, rest.1);
  }

  /** The row loop of one page, up to the end of the page or of the read; None is a refusal. */
  method ReadPage<Row>(src: seq<Row>, offset: nat, size: nat, fate: PageFate) returns (batch: Option<seq<Row>>)
    requires offset <= |src|
    ensures batch.None? <==> fate.Refused?
    ensures batch.Some? ==> batch.value == src[offset..offset + Seen(|src| - offset, size, fate)]
  {
    if fate.Refused? {
      return None;
    }
    var rows := [];
    while |rows| < size && offset + |rows| < |src| && !(fate.Broken? && |rows| == fate.rows)
      invariant |rows| <= Seen(|src| - offset, size, fate)
      invariant rows == src[offset..offset + |rows|]
      decreases size - |rows|
    {
      rows := rows + [src[offset + |rows|]];
    }
    return Some(rows);
  }

  /** SelectAll with the inserting callback: pages until one is empty or not full; 1000 rows a page by default. */
  method CopyPages<Row>(kind: Kind, src: seq<Row>, dst: seq<Row>, batchSize: int, faults: Faults)
    returns (copy: Copy<Row>)
    ensures var size := if batchSize <= 0 then 1000 else batchSize;
            var arrives := Arrives(kind, |src|, size, faults);
            && arrives <= |src| && copy.rows == dst + src[..arrives]
            && copy.error == CopyErrorOf(|src|, size, faults)
            && (copy.error.None? ==> copy.count == arrives)
  {
    var size := if batchSize <= 0 then 1000 else batchSize;
    ghost var arrives, error := Arrives(kind, |src|, size, faults), CopyErrorOf(|src|, size, faults);
    ArrivesWithin(kind, |src|, size, faults);
    var offset, rows, left := 0, dst, faults;
    while true
      invariant offset <= |src| && rows == dst + src[..offset]
      invariant arrives == offset + Arrives(kind, |src| - offset, size, left)
      invariant error == CopyErrorOf(|src| - offset, size, left)
      decreases |src| - offset
    {
      var rows', k, more, failed := CopyPage(kind, src, dst, offset, rows, size, left);
      if !more {
        return Copy(rows', offset + k, failed);
      }
      left := AfterPage(left, size);
      rows, offset := rows', offset + size;
    }
  }

  /** One round of the loop: `k` rows arrive, and there may be more, or an error. */
  method CopyPage<Row>(kind: Kind, src: seq<Row>, ghost dst: seq<Row>, offset: nat, rows: seq<Row>, size: nat,
                       faults: Faults)
    returns (rows': seq<Row>, k: nat, more: bool, error: Option<CopyError>)
    requires size > 0 && offset <= |src| && rows == dst + src[..offset]
    ensures offset + k <= |src| && rows' == dst + src[..offset + k]
    ensures more ==> k == size && Within(size, faults.room)
    ensures more ==>
            Arrives(kind, |src| - offset, size, faults) ==
              k + Arrives(kind, |src| - (offset + size), size, AfterPage(faults, size))
    ensures more ==>
            CopyErrorOf(|src| - offset, size, faults) ==
              CopyErrorOf(|src| - (offset + size), size, AfterPage(faults, size))
    ensures !more ==>
            k == Arrives(kind, |src| - offset, size, faults) && error == CopyErrorOf(|src| - offset, size, faults)
  {
    ghost var n := |src| - offset;
    var page := ReadPage(src, offset, size, FateAt(faults.pages, 0));
    if page.None? {
      RefusedPage(kind, n, size, faults);
      return rows, 0, false, Some(QueryFailed);
    }
    var batch := page.value;
    if |batch| == 0 {
      LastPage(kind, n, size, faults, 0);
      return rows, 0, false, None;
    }
    var ok;
    rows', ok := InsertPage(kind, src, dst, offset, rows, batch, faults.room);
    if !ok {
      PageTooLong(kind, n, size, faults, |batch|);
      return rows', if kind == Postgres then faults.room.value else 0, false, Some(InsertFailed);
    }
    if |batch| < size {
      LastPage(kind, n, size, faults, |batch|);
    } else {
      FullPage(kind, n, size, faults);
    }
    return rows', |batch|, |batch| == size, None;
  }

  /** The callback on one page: the destination grows by what the insert keeps of it. */
  method InsertPage<Row>(kind: Kind, ghost src: seq<Row>, ghost dst: seq<Row>, ghost offset: nat,
                         rows: seq<Row>, batch: seq<Row>, room: Option<nat>) returns (rows': seq<Row>, ok: bool)
    requires offset + |batch| <= |src| && batch == src[offset..offset + |batch|] && rows == dst + src[..offset]
    ensures ok <==> Within(|batch|, room)
    ensures rows' == dst + src[..offset + if ok then |batch| else if kind == Postgres then room.value else 0]
  {
    rows', ok := InsertBatch(kind, rows, batch, room);
    ghost var kept := if ok then |batch| else if kind == Postgres then room.value else 0;
    assert batch[..kept] == src[offset..offset + kept];
    assert rows' == rows + batch[..kept];
    PrefixExtends(src, dst, offset, kept);
  }

  /** Appending a page, or part of it, extends the copied prefix. */
  lemma PrefixExtends<Row>(src: seq<Row>, dst: seq<Row>, offset: nat, k: nat)
    requires offset + k <= |src|
    ensures (dst + src[..offset]) + src[offset..offset + k] == dst + src[..offset + k]
  {
  }

  /** Without faults the paging loop brings every row, whatever the batch size. */
  lemma FaultlessCopy(kind: Kind, n: nat, size: nat)
    requires size > 0
    ensures Arrives(kind, n, size, Faults(None, [])) == n && CopyErrorOf(n, size, Faults(None, [])) == None
  {
    WholeTableIff(n, size, []);
  }

  /** A copy reports success exactly when what is delivered fits and no refused page ends the reading. */
  lemma CopySucceedsIff(n: nat, size: nat, faults: Faults)
    requires size > 0
    ensures CopyErrorOf(n, size, faults).None? <==>
            Within(Delivered(n, size, faults.pages).0, faults.room) &&
            forall i: nat | IsFirstFault(n, size, faults.pages, i) :: FateAt(faults.pages, i).Broken?
  {
    WholeTableIff(n, size, faults.pages);
    forall i: nat | IsFirstFault(n, size, faults.pages, i)
      ensures Delivered(n, size, faults.pages).1 <==> FateAt(faults.pages, i).Refused?
    {
      FirstFaultDecides(n, size, faults.pages, i);
    }
    if !Unbroken(n, size, faults.pages) {
      var i := FirstFaulty(n, size, faults.pages);
      assert IsFirstFault(n, size, faults.pages, i);
    }
  }

  lemma FirstFaulty(n: nat, size: nat, pages: seq<PageFate>) returns (i: nat)
    requires !Unbroken(n, size, pages)
    ensures IsFirstFault(n, size, pages, i)
  {
    var bound: nat :| Faulty(n, size, pages, bound);
    i := 0;
    while !Faulty(n, size, pages, i)
      invariant i <= bound && forall j: nat | j < i :: !Faulty(n, size, pages, j)
      decreases bound - i
    {
      i := i + 1;
    }
  }

  /** No page read breaks before the last row of its page. */
  ghost predicate NoReadBreaks(n: nat, size: nat, pages: seq<PageFate>) {
    forall i: nat :: Faulty(n, size, pages, i) ==> !FateAt(pages, i).Broken?
  }

  /** A copy that reports success brought the whole table exactly when no page read broke before its last row. */
  lemma SuccessIsWholeIff(kind: Kind, n: nat, size: nat, faults: Faults)
    requires size > 0 && CopyErrorOf(n, size, faults).None?
    ensures Arrives(kind, n, size, faults) == n <==> NoReadBreaks(n, size, faults.pages)
  {
    CopySucceedsIff(n, size, faults);
    WholeTableIff(n, size, faults.pages);
    if !Unbroken(n, size, faults.pages) {
      var i := FirstFaulty(n, size, faults.pages);
      assert FateAt(faults.pages, i).Broken?;
    }
  }

  /** A table of three rows, read in pages of two: the second read breaks, two rows arrive, and nobody notices. */
  lemma BrokenReadPasses(kind: Kind)
    ensures var faults := Faults(None, [Answered, Broken(0)]);
            Arrives(kind, 3, 2, faults) == 2 && CopyErrorOf(3, 2, faults) == None
  {
    assert Tail([Answered, Broken(0)]) == [Broken(0)];
    assert Delivered(1, 2, [Broken(0)]) == (0, false);
  }

  // ---- Whole databases -----------------------------------------------------------------

  datatype Options = Options(batchSize: int, createTable: bool, dropTarget: bool)

  /** What happens to one table: schema read, table creation, and the faults of the copy. */
  datatype Fate = Fate(schemaFails: bool, createFails: bool, faults: Faults)

  datatype Stats = Stats(tableCount: nat, rowCount: nat, errors: seq<CopyError>)

  /**
   * Copying into a missing table is like copying into one without room, and the first query on a missing
   * source table is refused.
   */
  function FaultsOn<Row(==)>(src: map<string, seq<Row>>, dst: map<string, seq<Row>>, table: string,
                             faults: Faults): Faults
  {
    Faults(if table in dst then faults.room else Some(0), if table in src then faults.pages else [Refused])
  }

  function RowsOf<Row(==)>(db: map<string, seq<Row>>, table: string): seq<Row> {
    if table in db then db[table] else []
  }

  /** MySQL reports the columns of a missing table as an error; Postgres as an empty list. */
  predicate SchemaReads<Row(==)>(from: Kind, src: map<string, seq<Row>>, table: string, fate: Fate) {
    !fate.schemaFails && (table in src || from == Postgres)
  }

  /** MySQL does not create a table without columns. */
  predicate Creates<Row(==)>(to: Kind, src: map<string, seq<Row>>, table: string, fate: Fate) {
    !fate.createFails && (table in src || to == Postgres)
  }

  /** The destination when the copy starts, or the error before it. */
  function Prepared<Row(==)>(from: Kind, to: Kind, src: map<string, seq<Row>>, dst: map<string, seq<Row>>,
                             table: string, opts: Options, fate: Fate): (map<string, seq<Row>>, Option<CopyError>)
  {
    if !SchemaReads(from, src, table, fate) then (dst, Some(SchemaFailed))
    else if !opts.createTable && !opts.dropTarget then (dst, None)
    else
      var dropped := if opts.dropTarget then dst - {table} else dst;
      if !Creates(to, src, table, fate) then (dropped, Some(CreateFailed))
      else (if table in dropped then dropped else dropped[table := []], None)
  }

  function SizeOf(opts: Options): (size: nat)
    ensures (opts.batchSize > 0 ==> size == opts.batchSize) && (opts.batchSize <= 0 ==> size == 500)
  {
    if opts.batchSize <= 0 then 500 else opts.batchSize
  }

  function TransferTable<Row(==)>(from: Kind, kind: Kind, src: map<string, seq<Row>>, dst: map<string, seq<Row>>,
                                  table: string, opts: Options, fate: Fate)
    : (r: (map<string, seq<Row>>, Result<nat, CopyError>))
    requires opts.batchSize > 0
  {
    var (ready, error) := Prepared(from, kind, src, dst, table, opts, fate);
    if error.Some? then (ready, Failure(error.value))
    else
      var faults := FaultsOn(src, ready, table, fate.faults);
      var n := |RowsOf(src, table)|;
      ArrivesWithin(kind, n, opts.batchSize, faults);
      var k := Arrives(kind, n, opts.batchSize, faults);
      var after := if table in ready then ready[table := ready[table] + RowsOf(src, table)[..k]] else ready;
      var copyError := CopyErrorOf(n, opts.batchSize, faults);
      (after, if copyError.Some? then Failure(copyError.value) else Success(k))
  }

  function Record(stats: Stats, r: Result<nat, CopyError>): Stats {
    match r
    case Success(n) => stats.(tableCount := stats.tableCount + 1, rowCount := stats.rowCount + n)
    case Failure(e) => stats.(errors := stats.errors + [e])
  }

  /** All tables in turn; a failing table is noted and the next one is tried. */
  function TransferAll<Row(==)>(from: Kind, kind: Kind, src: map<string, seq<Row>>, dst: map<string, seq<Row>>,
                                tables: seq<string>, opts: Options, fates: seq<Fate>): (map<string, seq<Row>>, Stats)
    requires opts.batchSize > 0 && |fates| == |tables|
  {
    if tables == [] then (dst, Stats(0, 0, []))
    else
      var k := |tables| - 1;
      var (dst', stats) := TransferAll(from, kind, src, dst, tables[..k], opts, fates[..k]);
      var (dst'', r) := TransferTable(from, kind, src, dst', tables[k], opts, fates[k]);
      (dst'', Record(stats, r))
  }

  /** `GetTables`: MySQL reports a listing that breaks off as an error, Postgres as a shorter list. */
  function Listed(from: Kind, all: seq<string>, listing: PageFate): Option<seq<string>> {
    match listing
    case Answered => Some(all)
    case Refused => None
    case Broken(k) => if from == MySQL then None else Some(if k < |all| then all[..k] else all)
  }

  function TablesOf(from: Kind, named: seq<string>, all: seq<string>, listing: PageFate): (tables: Option<seq<string>>)
    ensures named != [] ==> tables == Some(named)
  {
    if named == [] then Listed(from, all, listing) else Some(named)
  }

  method ListTables(from: Kind, all: seq<string>, listing: PageFate) returns (r: Option<seq<string>>)
    ensures r == Listed(from, all, listing)
  {
    if listing.Refused? {
      return None;
    }
    var tables: seq<string> := [];
    while |tables| < |all| && !(listing.Broken? && |tables| == listing.rows)
      invariant |tables| <= |all| && tables == all[..|tables|]
      invariant listing.Broken? ==> |tables| <= listing.rows
      decreases |all| - |tables|
    {
      tables := tables + [all[|tables|]];
    }
    if from == MySQL && listing.Broken? {
      return None;
    }
    assert all[..|all|] == all;
    return Some(tables);
  }

  /** The source's tables, each listed once. */
  ghost predicate Lists<Row>(src: map<string, seq<Row>>, all: seq<string>) {
    && (forall i, j | 0 <= i < j < |all| :: all[i] != all[j])
    && (forall i | 0 <= i < |all| :: all[i] in src)
    && (forall t | t in src :: t in all)
  }

  /** From MySQL a listing is whole or an error. */
  lemma MySQLListsAll(all: seq<string>, listing: PageFate)
    ensures TablesOf(MySQL, [], all, listing) == if listing.Answered? then Some(all) else None
  {
  }

  /** A job without named tables takes on every source table exactly when the listing was not cut short. */
  lemma UnnamedJobCoversIff<Row>(from: Kind, src: map<string, seq<Row>>, all: seq<string>, listing: PageFate)
    requires Lists(src, all) && TablesOf(from, [], all, listing).Some?
    ensures (forall t | t in src :: t in TablesOf(from, [], all, listing).value) <==>
            !(listing.Broken? && listing.rows < |all|)
  {
    if listing.Broken? && listing.rows < |all| {
      assert all[listing.rows] !in all[..listing.rows];
    }
  }

  /** The destination database and the running result, changed table by table. */
  class Job<Row(==)> {
    const from: Kind
    const kind: Kind
    const src: map<string, seq<Row>>
    var dst: map<string, seq<Row>>
    var stats: Stats

    constructor (from: Kind, kind: Kind, src: map<string, seq<Row>>, dst: map<string, seq<Row>>)
      ensures this.from == from && this.kind == kind && this.src == src && this.dst == dst && stats == Stats(0, 0, [])
    {
      this.from, this.kind, this.src, this.dst, stats := from, kind, src, dst, Stats(0, 0, []);
    }

    method CopyTable(table: string, opts: Options, fate: Fate) returns (r: Result<nat, CopyError>)
      requires opts.batchSize > 0
      modifies this`dst
      ensures (dst, r) == TransferTable(from, kind, src, old(dst), table, opts, fate)
    {
      if !SchemaReads(from, src, table, fate) {
        return Failure(SchemaFailed);
      }
      if opts.createTable || opts.dropTarget {
        if opts.dropTarget {
          dst := dst - {table};
        }
        if !Creates(kind, src, table, fate) {
          return Failure(CreateFailed);
        }
        if table !in dst {
          dst := dst[table := []];
        }
      }
      var faults := FaultsOn(src, dst, table, fate.faults);
      var copy := CopyPages(kind, RowsOf(src, table), RowsOf(dst, table), opts.batchSize, faults);
      if table in dst {
        dst := dst[table := copy.rows];
      }
      if copy.error.Some? {
        return Failure(copy.error.value);
      }
      return Success(copy.count);
    }

    /** The tables named, or else all that the source lists; a failed listing ends the job. */
    method Run(named: seq<string>, all: seq<string>, listing: PageFate, opts: Options, fates: seq<Fate>)
      returns (done: bool)
      requires |fates| ==
               if TablesOf(from, named, all, listing).Some? then |TablesOf(from, named, all, listing).value| else 0
      modifies this
      ensures done <==> TablesOf(from, named, all, listing).Some?
      ensures done ==>
                var tables := TablesOf(from, named, all, listing).value;
                (dst, stats) == TransferAll(from, kind, src, old(dst), tables, opts.(batchSize := SizeOf(opts)), fates)
      ensures !done ==> dst == old(dst) && stats == old(stats)
    {
      var tables := named;
      if |tables| == 0 {
        var listed := ListTables(from, all, listing);
        if listed.None? {
          return false;
        }
        tables := listed.value;
      }
      RunAll(tables, opts.(batchSize := SizeOf(opts)), fates);
      return true;
    }

    method RunAll(tables: seq<string>, opts: Options, fates: seq<Fate>)
      requires opts.batchSize > 0 && |fates| == |tables|
      modifies this
      ensures (dst, stats) == TransferAll(from, kind, src, old(dst), tables, opts, fates)
    {
      stats := Stats(0, 0, []);
      var i := 0;
      while i < |tables|
        invariant 0 <= i <= |tables|
        invariant (dst, stats) == TransferAll(from, kind, src, old(dst), tables[..i], opts, fates[..i])
      {
        TransferAllNext(from, kind, src, old(dst), tables, opts, fates, i);
        ghost var before := stats;
        var r := CopyTable(tables[i], opts, fates[i]);
        match r {
          case Success(n) => stats := stats.(tableCount := stats.tableCount + 1, rowCount := stats.rowCount + n);
          case Failure(e) => stats := stats.(errors := stats.errors + [e]);
        }
        assert stats == Record(before, r);
        i := i + 1;
      }
      assert tables[..i] == tables && fates[..i] == fates;
    }
  }

  lemma TransferAllNext<Row>(from: Kind, kind: Kind, src: map<string, seq<Row>>, dst: map<string, seq<Row>>,
                             tables: seq<string>, opts: Options, fates: seq<Fate>, i: nat)
    requires opts.batchSize > 0 && |fates| == |tables| && i < |tables|
    ensures var (dst', stats) := TransferAll(from, kind, src, dst, tables[..i], opts, fates[..i]);
            var (dst'', r) := TransferTable(from, kind, src, dst', tables[i], opts, fates[i]);
            TransferAll(from, kind, src, dst, tables[..i + 1], opts, fates[..i + 1]) == (dst'', Record(stats, r))
  {
    assert tables[..i + 1][..i] == tables[..i] && fates[..i + 1][..i] == fates[..i];
  }

  /** Where a table starts from: empty when it is dropped first. */
  function StartOf<Row(==)>(from: Kind, src: map<string, seq<Row>>, dst: map<string, seq<Row>>, table: string,
                            opts: Options, fate: Fate): seq<Row>
  {
    if opts.dropTarget && SchemaReads(from, src, table, fate) then [] else RowsOf(dst, table)
  }

  lemma PreparedStarts<Row>(from: Kind, kind: Kind, src: map<string, seq<Row>>, dst: map<string, seq<Row>>,
                            table: string, opts: Options, fate: Fate)
    ensures var (ready, error) := Prepared(from, kind, src, dst, table, opts, fate);
            && ready - {table} == dst - {table}
            && (table in ready ==> ready[table] == StartOf(from, src, dst, table, opts, fate))
            && (error.None? ==> SchemaReads(from, src, table, fate))
  {
  }

  /**
   * One table ends as its starting rows plus the first `k` rows of the source, which a success counts;
   * no other table changes. A success brought all of them exactly when no page read broke early.
   */
  lemma TableGetsPrefix<Row>(from: Kind, kind: Kind, src: map<string, seq<Row>>, dst: map<string, seq<Row>>,
                             table: string, opts: Options, fate: Fate) returns (k: nat)
    requires opts.batchSize > 0
    ensures k <= |RowsOf(src, table)|
    ensures var (dst', r) := TransferTable(from, kind, src, dst, table, opts, fate);
            && dst' - {table} == dst - {table}
            && (table in dst' ==> dst'[table] == StartOf(from, src, dst, table, opts, fate) + RowsOf(src, table)[..k])
            && (r.Success? ==> r.value == k && (table in dst' || k == 0))
            && (r.Success? ==>
                  (k == |RowsOf(src, table)| <==>
                   NoReadBreaks(|RowsOf(src, table)|, opts.batchSize, fate.faults.pages)))
  {
    var (ready, error) := Prepared(from, kind, src, dst, table, opts, fate);
    PreparedStarts(from, kind, src, dst, table, opts, fate);
    k := 0;
    if error.None? {
      var faults := FaultsOn(src, ready, table, fate.faults);
      k := Arrives(kind, |RowsOf(src, table)|, opts.batchSize, faults);
      ArrivesWithin(kind, |RowsOf(src, table)|, opts.batchSize, faults);
      if CopyErrorOf(|RowsOf(src, table)|, opts.batchSize, faults).None? {
        SuccessIsWholeIff(kind, |RowsOf(src, table)|, opts.batchSize, faults);
      }
    }
  }

  /** The source has the table, its schema reads, and what is asked for can be created. */
  predicate Ready<Row(==)>(src: map<string, seq<Row>>, table: string, opts: Options, fate: Fate) {
    && table in src && !fate.schemaFails
    && (opts.createTable || opts.dropTarget ==> !fate.createFails)
  }

  /**
   * A table that is to be created or dropped first exists afterwards, whatever else happens, and without
   * faults of the copy it holds what it started from and the whole source, which is counted.
   */
  lemma TableIsCreatedAndFilled<Row>(from: Kind, kind: Kind, src: map<string, seq<Row>>, dst: map<string, seq<Row>>,
                                         table: string, opts: Options, fate: Fate)
    requires opts.batchSize > 0 && Ready(src, table, opts, fate)
    ensures var (dst', r) := TransferTable(from, kind, src, dst, table, opts, fate);
            var start := if opts.dropTarget || table !in dst then [] else dst[table];
            && (opts.createTable || opts.dropTarget ==> table in dst')
            && ((opts.createTable || opts.dropTarget || table in dst) && fate.faults == Faults(None, []) ==>
                  table in dst' && dst'[table] == start + src[table] && r == Success(|src[table]|))
  {
    FaultlessCopy(kind, |src[table]|, opts.batchSize);
    assert src[table][..|src[table]|] == src[table];
  }

  /** Without either option, a table the destination lacks stays missing: an error exactly when it has rows. */
  lemma MissingTargetFailsIff<Row>(from: Kind, kind: Kind, src: map<string, seq<Row>>, dst: map<string, seq<Row>>,
                                       table: string, opts: Options, fate: Fate)
    requires opts.batchSize > 0 && Ready(src, table, opts, fate) && !opts.createTable && !opts.dropTarget
    requires table !in dst && fate.faults == Faults(None, [])
    ensures TransferTable(from, kind, src, dst, table, opts, fate) ==
            (dst, if src[table] == [] then Success(0) else Failure(InsertFailed))
  {
    FaultlessCopy(kind, |src[table]|, opts.batchSize);
  }

  /** A schema that cannot be read changes nothing; a table that cannot be created is at most dropped. */
  lemma EarlyFailures<Row>(from: Kind, kind: Kind, src: map<string, seq<Row>>, dst: map<string, seq<Row>>,
                               table: string, opts: Options, fate: Fate)
    requires opts.batchSize > 0 && table in src
    ensures var (dst', r) := TransferTable(from, kind, src, dst, table, opts, fate);
            && (fate.schemaFails <==> r == Failure(SchemaFailed))
            && (!fate.schemaFails && fate.createFails && (opts.createTable || opts.dropTarget) <==>
                  r == Failure(CreateFailed))
            && (fate.schemaFails ==> dst' == dst)
            && (r == Failure(CreateFailed) ==> dst' == if opts.dropTarget then dst - {table} else dst)
  {
  }

  /**
   * A table the source does not have is always an error. The destination keeps its rows of that name
   * exactly when it is not to be dropped, has none, or the source said that the table is missing.
   */
  lemma MissingTableKeepsRowsIff<Row>(from: Kind, kind: Kind, src: map<string, seq<Row>>, dst: map<string, seq<Row>>,
                                      table: string, opts: Options, fate: Fate)
    requires opts.batchSize > 0 && table !in src
    ensures var (dst', r) := TransferTable(from, kind, src, dst, table, opts, fate);
            && r.Failure?
            && (RowsOf(dst', table) == RowsOf(dst, table) <==>
                  !opts.dropTarget || from == MySQL || fate.schemaFails || RowsOf(dst, table) == [])
  {
    var (ready, _) := Prepared(from, kind, src, dst, table, opts, fate);
    PreparedStarts(from, kind, src, dst, table, opts, fate);
    var faults := FaultsOn(src, ready, table, fate.faults);
    assert Delivered(0, opts.batchSize, [Refused]) == (0, true);
    assert faults.pages == [Refused];
    assert RowsOf(src, table) == [];
  }

  /** The error of a failing table stands behind those of the tables before it. */
  lemma {:induction false} ErrorsFollowTables<Row>(from: Kind, kind: Kind, src: map<string, seq<Row>>,
                                                       dst: map<string, seq<Row>>, tables: seq<string>,
                                                       opts: Options, fates: seq<Fate>, k: nat)
    requires opts.batchSize > 0 && |fates| == |tables| && k < |tables|
    ensures var (dst', before) := TransferAll(from, kind, src, dst, tables[..k], opts, fates[..k]);
            var (r, errors) := (TransferTable(from, kind, src, dst', tables[k], opts, fates[k]).1,
                                TransferAll(from, kind, src, dst, tables, opts, fates).1.errors);
            && before.errors <= errors
            && (r.Failure? ==> |errors| > |before.errors| && errors[|before.errors|] == r.error)
  {
    var n := |tables| - 1;
    if k < n {
      assert tables[..n][..k] == tables[..k] && fates[..n][..k] == fates[..k];
      ErrorsFollowTables(from, kind, src, dst, tables[..n], opts, fates[..n], k);
    }
  }

  /** The source rows of the tables whose transfer succeeds. */
  function RowsOfSuccesses<Row(==)>(from: Kind, kind: Kind, src: map<string, seq<Row>>, dst: map<string, seq<Row>>,
                                    tables: seq<string>, opts: Options, fates: seq<Fate>): nat
    requires opts.batchSize > 0 && |fates| == |tables|
  {
    if tables == [] then 0
    else
      var k := |tables| - 1;
      RowsOfSuccesses(from, kind, src, dst, tables[..k], opts, fates[..k])
      + (if Succeeds(from, kind, src, dst, tables, opts, fates, k) then |RowsOf(src, tables[k])| else 0)
  }

  /** The transfer of the `k`-th table succeeds, after all those before it. */
  predicate Succeeds<Row(==)>(from: Kind, kind: Kind, src: map<string, seq<Row>>, dst: map<string, seq<Row>>,
                              tables: seq<string>, opts: Options, fates: seq<Fate>, k: nat)
    requires opts.batchSize > 0 && |fates| == |tables| && k < |tables|
  {
    var dst' := TransferAll(from, kind, src, dst, tables[..k], opts, fates[..k]).0;
    TransferTable(from, kind, src, dst', tables[k], opts, fates[k]).1.Success?
  }

  /** The transfer of the `k`-th table succeeds although a page read broke. */
  ghost predicate SuccessBreaks<Row>(from: Kind, kind: Kind, src: map<string, seq<Row>>, dst: map<string, seq<Row>>,
                                     tables: seq<string>, opts: Options, fates: seq<Fate>, k: nat)
    requires opts.batchSize > 0 && |fates| == |tables|
  {
    && k < |tables| && Succeeds(from, kind, src, dst, tables, opts, fates, k)
    && !NoReadBreaks(|RowsOf(src, tables[k])|, opts.batchSize, fates[k].faults.pages)
  }

  /** No table whose transfer succeeds was cut short by a page read. */
  ghost predicate NoSuccessBreaks<Row>(from: Kind, kind: Kind, src: map<string, seq<Row>>, dst: map<string, seq<Row>>,
                                      tables: seq<string>, opts: Options, fates: seq<Fate>)
    requires opts.batchSize > 0 && |fates| == |tables|
  {
    forall k: nat :: !SuccessBreaks(from, kind, src, dst, tables, opts, fates, k)
  }

  lemma NoSuccessBreaksLast<Row>(from: Kind, kind: Kind, src: map<string, seq<Row>>, dst: map<string, seq<Row>>,
                                 tables: seq<string>, opts: Options, fates: seq<Fate>)
    requires opts.batchSize > 0 && |fates| == |tables| > 0
    ensures var n := |tables| - 1;
            NoSuccessBreaks(from, kind, src, dst, tables, opts, fates) <==>
            NoSuccessBreaks(from, kind, src, dst, tables[..n], opts, fates[..n]) &&
              !SuccessBreaks(from, kind, src, dst, tables, opts, fates, n)
  {
    var n := |tables| - 1;
    var firstTables, firstFates := tables[..n], fates[..n];
    forall k: nat | k < n
      ensures SuccessBreaks(from, kind, src, dst, tables, opts, fates, k) <==>
              SuccessBreaks(from, kind, src, dst, firstTables, opts, firstFates, k)
    {
      SuccessBreaksOnPrefix(from, kind, src, dst, tables, opts, fates, k, n);
    }
  }

  lemma SuccessBreaksOnPrefix<Row>(from: Kind, kind: Kind, src: map<string, seq<Row>>, dst: map<string, seq<Row>>,
                                   tables: seq<string>, opts: Options, fates: seq<Fate>, k: nat, n: nat)
    requires opts.batchSize > 0 && |fates| == |tables| && k < n <= |tables|
    ensures SuccessBreaks(from, kind, src, dst, tables, opts, fates, k) <==>
            SuccessBreaks(from, kind, src, dst, tables[..n], opts, fates[..n], k)
  {
    assert tables[..n][..k] == tables[..k] && fates[..n][..k] == fates[..k];
  }

  /**
   * Tables that succeeded plus errors are the tables requested. The rows counted are at most those of
   * the successful tables, and all of them exactly when no page read broke in one of these.
   */
  lemma {:induction false} EveryTableIsAccounted<Row>(from: Kind, kind: Kind, src: map<string, seq<Row>>,
                                      dst: map<string, seq<Row>>, tables: seq<string>, opts: Options,
                                      fates: seq<Fate>)
    requires opts.batchSize > 0 && |fates| == |tables|
    ensures var stats := TransferAll(from, kind, src, dst, tables, opts, fates).1;
            && stats.tableCount + |stats.errors| == |tables|
            && stats.rowCount <= RowsOfSuccesses(from, kind, src, dst, tables, opts, fates)
            && (stats.rowCount == RowsOfSuccesses(from, kind, src, dst, tables, opts, fates) <==>
                  NoSuccessBreaks(from, kind, src, dst, tables, opts, fates))
  {
    if tables != [] {
      var k := |tables| - 1;
      EveryTableIsAccounted(from, kind, src, dst, tables[..k], opts, fates[..k]);
      NoSuccessBreaksLast(from, kind, src, dst, tables, opts, fates);
      var dst' := TransferAll(from, kind, src, dst, tables[..k], opts, fates[..k]).0;
      var _ := TableGetsPrefix(from, kind, src, dst', tables[k], opts, fates[k]);
    }
  }
}
