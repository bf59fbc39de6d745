/** Sequence numbers of a zone: a counter plus a pool of recycled numbers, reused smallest first. */
module SeqAllocator {
  import opened Prelude

  datatype Zone = Zone(inventory: string, mainZone: string, subZone: string)

  /** What the tables say about one zone. */
  datatype Pool = Pool(max: int, recycled: set<int>)

  // ---- Least element ------------------------------------------------------------

  ghost predicate IsLeast(n: int, s: set<int>) {
    n in s && forall m | m in s :: n <= m
  }

  ghost predicate Occupied(s: set<int>) {
    exists n :: n in s
  }

  lemma {:induction false} LeastExists(s: set<int>, x: int)
    requires x in s
    ensures exists n :: IsLeast(n, s)
    decreases |s|
  {
    if forall y | y in s :: x <= y {
      assert IsLeast(x, s);
    } else {
      var y :| y in s && y < x;
      var rest := s - {x};
      LeastExists(rest, y);
      var n :| IsLeast(n, rest);
      assert forall m | m in s :: m == x || m in rest;
      assert IsLeast(n, s);
    }
  }

  ghost function Least(s: set<int>): (n: int)
    requires Occupied(s)
    ensures IsLeast(n, s)
  {
    var x :| x in s;
    LeastExists(s, x);
    var n :| IsLeast(n, s);
    n
  }

  // ---- One zone over time ---------------------------------------------------------

  /** The next number; any error of the pop, not only an empty pool, makes the counter advance. */
  ghost function Allocated(p: Pool, popFails: bool): int {
    if Occupied(p.recycled) && !popFails then Least(p.recycled) else p.max + 1
  }

  ghost function Allocate(p: Pool, popFails: bool): Pool {
    if Occupied(p.recycled) && !popFails then p.(recycled := p.recycled - {Least(p.recycled)}) else p.(max := p.max + 1)
  }

  function Recycle(p: Pool, n: int): Pool {
    p.(recycled := p.recycled + {n})
  }

  datatype Op = AllocateOp(zone: Zone, popFails: bool) | RecycleOp(zone: Zone, number: int)

  ghost function PoolStep(p: Pool, op: Op): Pool {
    match op
    case AllocateOp(_, popFails) => Allocate(p, popFails)
    case RecycleOp(_, n) => Recycle(p, n)
  }

  /** The pool of a zone after a run; operations on other zones do not touch it. */
  ghost function PoolAfter(ops: seq<Op>, zone: Zone): Pool {
    if ops == [] then Pool(0, {})
    else
      var p, op := PoolAfter(ops[..|ops| - 1], zone), ops[|ops| - 1];
      if op.zone == zone then PoolStep(p, op) else p
  }

  /** The numbers handed out and not given back since. */
  ghost function Held(ops: seq<Op>, zone: Zone): set<int> {
    if ops == [] then {}
    else
      var before, op := ops[..|ops| - 1], ops[|ops| - 1];
      var held := Held(before, zone);
      if op.zone != zone then held
      else match op
        case AllocateOp(_, popFails) => held + {Allocated(PoolAfter(before, zone), popFails)}
        case RecycleOp(_, n) => held - {n}
  }

  /** The largest number of numbers held at once during the run. */
  ghost function PeakHeld(ops: seq<Op>, zone: Zone): nat {
    if ops == [] then 0
    else
      var earlier, now := PeakHeld(ops[..|ops| - 1], zone), |Held(ops, zone)|;
      if now > earlier then now else earlier
  }

  /** Only numbers that the counter has reached are ever given back. */
  ghost predicate RecyclesIssued(ops: seq<Op>, zone: Zone) {
    forall i | 0 <= i < |ops| && ops[i].RecycleOp? && ops[i].zone == zone ::
      1 <= ops[i].number <= PoolAfter(ops[..i], zone).max
  }

  /** Held and recycled numbers partition 1..current_max. */
  ghost predicate Partition(held: set<int>, p: Pool) {
    && held !! p.recycled
    && (forall n :: n in held || n in p.recycled <==> 1 <= n <= p.max)
  }

  /** The smallest positive number that is not held. */
  ghost predicate SmallestFree(n: int, held: set<int>) {
    n >= 1 && n !in held && forall m | 1 <= m < n :: m in held
  }

  lemma {:induction false} SizeOfRange(s: set<int>, max: nat)
    requires forall n :: n in s <==> 1 <= n <= max
    ensures |s| == max
  {
    if max > 0 {
      SizeOfRange(s - {max}, max - 1);
    } else if |s| > 0 {
      var _ := Pick(s);
    }
  }

  lemma PartitionSizes(held: set<int>, p: Pool)
    requires Partition(held, p) && p.max >= 0
    ensures |held| + |p.recycled| == p.max
  {
    SizeOfRange(held + p.recycled, p.max);
  }

  /**
   * An allocation keeps the partition; it hands out the smallest free number unless the pop fails on a
   * pool with numbers.
   */
  lemma AllocateFromPartition(held: set<int>, p: Pool, popFails: bool)
    requires Partition(held, p) && p.max >= 0
    ensures SmallestFree(Allocated(p, popFails), held) <==> !(popFails && Occupied(p.recycled))
    ensures Allocated(p, popFails) !in held
    ensures Partition(held + {Allocated(p, popFails)}, Allocate(p, popFails))
  {
    if popFails && Occupied(p.recycled) {
      var n :| n in p.recycled;
      assert 1 <= n < p.max + 1 && n !in held;
    }
  }

  /** Giving a number back keeps the partition exactly when the counter has reached that number. */
  lemma RecycleKeepsPartitionIff(held: set<int>, p: Pool, n: int)
    requires Partition(held, p)
    ensures Partition(held - {n}, Recycle(p, n)) <==> 1 <= n <= p.max
  {
    assert n in Recycle(p, n).recycled;
  }

  ghost predicate NoPopFails(ops: seq<Op>, zone: Zone) {
    forall i | 0 <= i < |ops| && ops[i].AllocateOp? && ops[i].zone == zone :: !ops[i].popFails
  }

  lemma RecyclesIssuedBefore(ops: seq<Op>, zone: Zone)
    requires ops != [] && RecyclesIssued(ops, zone)
    ensures var before, op := ops[..|ops| - 1], ops[|ops| - 1];
            && RecyclesIssued(before, zone)
            && (op.RecycleOp? && op.zone == zone ==> 1 <= op.number <= PoolAfter(before, zone).max)
  {
    var before := ops[..|ops| - 1];
    assert forall i | 0 <= i < |before| :: before[i] == ops[i] && before[..i] == ops[..i];
  }

  lemma {:induction false} AlwaysPartition(ops: seq<Op>, zone: Zone)
    requires RecyclesIssued(ops, zone)
    ensures Partition(Held(ops, zone), PoolAfter(ops, zone)) && PoolAfter(ops, zone).max >= 0
  {
    if ops != [] {
      var before, op := ops[..|ops| - 1], ops[|ops| - 1];
      RecyclesIssuedBefore(ops, zone);
      AlwaysPartition(before, zone);
      if op.zone == zone && op.RecycleOp? {
        RecycleKeepsPartitionIff(Held(before, zone), PoolAfter(before, zone), op.number);
      } else if op.zone == zone {
        AllocateFromPartition(Held(before, zone), PoolAfter(before, zone), op.popFails);
      }
    }
  }

  lemma RecyclesIssuedPrefix(ops: seq<Op>, zone: Zone, k: nat)
    requires k <= |ops| && RecyclesIssued(ops, zone)
    ensures RecyclesIssued(ops[..k], zone)
  {
    assert forall i | 0 <= i < k :: ops[..k][i] == ops[i] && ops[..k][..i] == ops[..i];
  }

  lemma {:induction false} MaxGrows(ops: seq<Op>, zone: Zone, k: nat)
    requires k <= |ops|
    ensures PoolAfter(ops[..k], zone).max <= PoolAfter(ops, zone).max
  {
    if k == |ops| {
      assert ops[..k] == ops;
    } else {
      MaxGrows(ops[..|ops| - 1], zone, k);
      assert ops[..|ops| - 1][..k] == ops[..k];
    }
  }

  lemma {:induction false} PeakIsUpper(ops: seq<Op>, zone: Zone, k: nat)
    requires k <= |ops|
    ensures |Held(ops[..k], zone)| <= PeakHeld(ops, zone)
  {
    if k == |ops| {
      assert ops[..k] == ops;
    } else {
      PeakIsUpper(ops[..|ops| - 1], zone, k);
      assert ops[..|ops| - 1][..k] == ops[..k];
    }
  }

  lemma {:induction false} PeakIsReached(ops: seq<Op>, zone: Zone) returns (k: nat)
    ensures k <= |ops| && |Held(ops[..k], zone)| == PeakHeld(ops, zone)
  {
    if ops == [] || |Held(ops, zone)| == PeakHeld(ops, zone) {
      k := |ops|;
      assert ops[..k] == ops;
    } else {
      k := PeakIsReached(ops[..|ops| - 1], zone);
      assert ops[..|ops| - 1][..k] == ops[..k];
    }
  }

  /** After `k` operations no number was waiting to be reused, and the counter has not moved since. */
  ghost predicate UsedUpAt(ops: seq<Op>, zone: Zone, k: nat) {
    && k <= |ops| && PoolAfter(ops[..k], zone).max == PoolAfter(ops, zone).max
    && !Occupied(PoolAfter(ops[..k], zone).recycled)
  }

  lemma SizesAt(ops: seq<Op>, zone: Zone, k: nat)
    requires k <= |ops| && RecyclesIssued(ops, zone)
    ensures var p := PoolAfter(ops[..k], zone);
            && |Held(ops[..k], zone)| <= p.max && (|Held(ops[..k], zone)| == p.max <==> !Occupied(p.recycled))
  {
    var p := PoolAfter(ops[..k], zone);
    RecyclesIssuedPrefix(ops, zone, k);
    AlwaysPartition(ops[..k], zone);
    PartitionSizes(Held(ops[..k], zone), p);
    EmptyHasNoElements(p.recycled);
  }

  /**
   * For every run that gives back only issued numbers: held and recycled numbers partition
   * 1..current_max, which is at least the largest number of numbers ever held at once, and equal to it
   * exactly when at some moment since the counter last moved no number was waiting to be reused.
   */
  lemma AllocatorInvariant(ops: seq<Op>, zone: Zone)
    requires RecyclesIssued(ops, zone)
    ensures Partition(Held(ops, zone), PoolAfter(ops, zone))
    ensures PoolAfter(ops, zone).max >= PeakHeld(ops, zone)
    ensures PoolAfter(ops, zone).max == PeakHeld(ops, zone) <==> exists k :: UsedUpAt(ops, zone, k)
  {
    AlwaysPartition(ops, zone);
    var k := PeakIsReached(ops, zone);
    SizesAt(ops, zone, k);
    MaxGrows(ops, zone, k);
    if PoolAfter(ops, zone).max == PeakHeld(ops, zone) {
      assert UsedUpAt(ops, zone, k);
    }
    if j :| UsedUpAt(ops, zone, j) {
      SizesAt(ops, zone, j);
      PeakIsUpper(ops, zone, j);
    }
  }

  /** When no pop ever failed, current_max is the largest number of numbers ever held at once. */
  lemma {:induction false} MaxIsPeakWithoutFailures(ops: seq<Op>, zone: Zone)
    requires RecyclesIssued(ops, zone) && NoPopFails(ops, zone)
    ensures PoolAfter(ops, zone).max == PeakHeld(ops, zone)
  {
    var k := LastAdvance(ops, zone);
    AllocatorInvariant(ops, zone);
    assert UsedUpAt(ops, zone, k);
  }

  lemma {:induction false} LastAdvance(ops: seq<Op>, zone: Zone) returns (k: nat)
    requires NoPopFails(ops, zone)
    ensures UsedUpAt(ops, zone, k)
  {
    k := |ops|;
    assert ops[..k] == ops;
    if ops != [] && Occupied(PoolAfter(ops, zone).recycled) {
      var before, op := ops[..|ops| - 1], ops[|ops| - 1];
      assert forall i | 0 <= i < |before| :: before[i] == ops[i];
      k := LastAdvance(before, zone);
      assert before[..k] == ops[..k];
    }
  }

  lemma EmptyHasNoElements(s: set<int>)
    ensures !Occupied(s) ==> |s| == 0
  {
    if |s| > 0 {
      var x := Pick(s);
      assert x in s;
    }
  }

  /**
   * After every run the next allocation hands out the smallest number not held, unless its pop fails on
   * a pool with numbers.
   */
  lemma NextIsSmallestFree(ops: seq<Op>, zone: Zone, popFails: bool)
    requires RecyclesIssued(ops, zone)
    ensures SmallestFree(Allocated(PoolAfter(ops, zone), popFails), Held(ops, zone)) <==>
            !(popFails && Occupied(PoolAfter(ops, zone).recycled))
  {
    AllocatorInvariant(ops, zone);
    AllocateFromPartition(Held(ops, zone), PoolAfter(ops, zone), popFails);
  }

  /** Giving back a number the counter never reached makes the allocator hand out a held number. */
  lemma UnissuedRecycleCollides(zone: Zone)
    ensures var ops := [RecycleOp(zone, 2), AllocateOp(zone, false), AllocateOp(zone, false)];
            Allocated(PoolAfter(ops, zone), false) in Held(ops, zone)
  {
    var r, a := RecycleOp(zone, 2), AllocateOp(zone, false);
    assert [r, a, a][..2] == [r, a] && [r, a][..1] == [r] && [r][..0] == [];
    assert PoolAfter([], zone) == Pool(0, {}) && PoolAfter([r], zone) == Pool(0, {2});
    assert Allocated(PoolAfter([r], zone), false) == 2;
    assert PoolAfter([r, a], zone) == Pool(0, {}) && 2 in Held([r, a], zone);
    assert PoolAfter([r, a, a], zone) == Pool(1, {}) && 2 in Held([r, a, a], zone);
  }

  // ---- The tables --------------------------------------------------------------------

  datatype RecycledRow = RecycledRow(zone: Zone, number: int)

  function NumbersOf(rows: seq<RecycledRow>, zone: Zone): set<int> {
    set i | 0 <= i < |rows| && rows[i].zone == zone :: rows[i].number
  }

  /** `zzz_goodser_seq_counters` and `zzz_goodser_recycled_seq_numbers`. */
  class SeqTables {
    var counters: map<Zone, int>
    var rows: seq<RecycledRow>

    constructor ()
      ensures forall zone :: ViewOf(zone) == Pool(0, {})
    {
      counters, rows := map[], [];
    }

    ghost function ViewOf(zone: Zone): Pool
      reads this
    {
      Pool(if zone in counters then counters[zone] else 0, NumbersOf(rows, zone))
    }

    /** The least recycled number of the zone; all its rows are deleted. */
    method PopRecycledSeq(zone: Zone) returns (r: Option<int>)
      modifies this`rows
      ensures r.Some? <==> Occupied(old(ViewOf(zone)).recycled)
      ensures r.Some? ==> r.value == Least(old(ViewOf(zone)).recycled)
      ensures r.Some? ==> ViewOf(zone).recycled == old(ViewOf(zone)).recycled - {r.value}
      ensures r.None? ==> ViewOf(zone) == old(ViewOf(zone))
      ensures forall z | z != zone :: ViewOf(z) == old(ViewOf(z))
    {
      r := None;
      var i := 0;
      while i < |rows|
        invariant 0 <= i <= |rows| && rows == old(rows)
        invariant r.Some? <==> Occupied(NumbersOf(rows[..i], zone))
        invariant r.Some? ==> IsLeast(r.value, NumbersOf(rows[..i], zone))
      {
        assert rows[..i + 1] == rows[..i] + [rows[i]];
        NumbersOfAppend(rows[..i], rows[i], zone);
        if rows[i].zone == zone && (r.None? || rows[i].number < r.value) {
          r := Some(rows[i].number);
        }
        i := i + 1;
      }
      assert rows[..i] == rows;
      if r.Some? {
        DeleteRows(zone, r.value);
      }
    }

    /** `DELETE ... WHERE zone = ? AND seq_number = ?`. */
    method DeleteRows(zone: Zone, number: int)
      modifies this`rows
      ensures ViewOf(zone).recycled == old(ViewOf(zone)).recycled - {number}
      ensures forall z | z != zone :: ViewOf(z) == old(ViewOf(z))
    {
      var kept: seq<RecycledRow> := [];
      var i := 0;
      while i < |rows|
        invariant 0 <= i <= |rows| && rows == old(rows)
        invariant NumbersOf(kept, zone) == NumbersOf(rows[..i], zone) - {number}
        invariant forall z | z != zone :: NumbersOf(kept, z) == NumbersOf(rows[..i], z)
      {
        assert rows[..i + 1] == rows[..i] + [rows[i]];
        forall z ensures NumbersOf(rows[..i + 1], z) == NumbersOf(rows[..i], z) + NumbersOf([rows[i]], z) {
          NumbersOfAppend(rows[..i], rows[i], z);
        }
        if rows[i] != RecycledRow(zone, number) {
          forall z ensures NumbersOf(kept + [rows[i]], z) == NumbersOf(kept, z) + NumbersOf([rows[i]], z) {
            NumbersOfAppend(kept, rows[i], z);
          }
          kept := kept + [rows[i]];
        }
        i := i + 1;
      }
      assert rows[..i] == rows;
      rows := kept;
    }

    /** `INSERT ... ON DUPLICATE KEY UPDATE current_max = current_max + 1`, then read it back. */
    method IncrementSeqCounter(zone: Zone) returns (n: int)
      modifies this`counters
      ensures n == old(ViewOf(zone)).max + 1
      ensures ViewOf(zone) == old(ViewOf(zone)).(max := n)
      ensures forall z | z != zone :: ViewOf(z) == old(ViewOf(z))
    {
      if zone in counters {
        counters := counters[zone := counters[zone] + 1];
      } else {
        counters := counters[zone := 1];
      }
      n := counters[zone];
    }

    method AddRecycledSeqTx(zone: Zone, number: int)
      modifies this`rows
      ensures ViewOf(zone) == Recycle(old(ViewOf(zone)), number)
      ensures forall z | z != zone :: ViewOf(z) == old(ViewOf(z))
    {
      forall z { NumbersOfAppend(rows, RecycledRow(zone, number), z); }
      rows := rows + [RecycledRow(zone, number)];
    }

    /** Reuse the smallest recycled number; when the pop yields none or fails, advance the counter. */
    method AllocateSeq(zone: Zone, popFails: bool) returns (n: int)
      modifies this
      ensures n == Allocated(old(ViewOf(zone)), popFails)
      ensures ViewOf(zone) == Allocate(old(ViewOf(zone)), popFails)
      ensures forall z | z != zone :: ViewOf(z) == old(ViewOf(z))
    {
      if !popFails {
        var popped := PopRecycledSeq(zone);
        if popped.Some? {
          return popped.value;
        }
      }
      n := IncrementSeqCounter(zone);
    }
  }

  lemma NumbersOfAppend(rows: seq<RecycledRow>, row: RecycledRow, zone: Zone)
    ensures NumbersOf(rows + [row], zone) == NumbersOf(rows, zone) + (if row.zone == zone then {row.number} else {})
    ensures NumbersOf([row], zone) == if row.zone == zone then {row.number} else {}
  {
    var all := rows + [row];
    forall n | n in NumbersOf(rows, zone) ensures n in NumbersOf(all, zone) {
      var i :| 0 <= i < |rows| && rows[i].zone == zone && rows[i].number == n;
      assert all[i] == rows[i];
    }
    assert all[|rows|] == row;
    assert [row][0] == row;
  }
}
