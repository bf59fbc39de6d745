/** Splitting a payload into numbered shards and merging them back. */
module Shards {
  import opened Prelude
  import opened Decimal

  /** Password encryption of a payload, as a pair of functions. */
  datatype Crypt = Crypt(encrypt: (Bytes, string) -> Bytes, decrypt: (Bytes, string) -> Option<Bytes>)

  ghost predicate Correct(crypt: Crypt) {
    forall data, password :: crypt.decrypt(crypt.encrypt(data, password), password) == Some(data)
  }

  datatype Splitter = Splitter(shardSize: int, password: string, prefix: string)

  datatype ShardSet = ShardSet(totalSize: int, shardSize: int, ids: seq<string>, shards: map<string, Bytes>)

  datatype ShardError = EmptyList | MissingShard(id: string) | BadPassword

  /** `NewSplitCompression`: 10 MiB and "shard" by default. */
  function NewSplitter(shardSize: int, password: string, prefix: string): (c: Splitter)
    ensures c.shardSize > 0 && c.prefix != "" && c.password == password
    ensures (shardSize > 0 ==> c.shardSize == shardSize) && (shardSize <= 0 ==> c.shardSize == 10_485_760)
    ensures (prefix != "" ==> c.prefix == prefix) && (prefix == "" ==> c.prefix == "shard")
  {
    Splitter(if shardSize <= 0 then 10 * 1024 * 1024 else shardSize, password, if prefix == "" then "shard" else prefix)
  }

  /** `%s_%03d`. */
  function ShardId(prefix: string, i: int): string {
    prefix + "_" + Padded(i, 3)
  }

  /** `(total + shardSize - 1) / shardSize` in 64-bit arithmetic. */
  function NumShards(total: int, shardSize: int): int
    requires shardSize > 0
  {
    Quotient(Wrap64(total + shardSize - 1), shardSize)
  }

  function Encrypted(crypt: Crypt, c: Splitter, data: Bytes): Bytes {
    if c.password == "" then data else crypt.encrypt(data, c.password)
  }

  // ---- Shard identities ------------------------------------------------------------

  /** Ids never repeat, however many shards there are and however many digits they need. */
  lemma IdsAreDistinct(prefix: string, i: nat, j: nat)
    ensures ShardId(prefix, i) == ShardId(prefix, j) <==> i == j
  {
    ValueOfPadded(i, 3);
    ValueOfPadded(j, 3);
    var head := prefix + "_";
    assert ShardId(prefix, i)[|head|..] == Padded(i, 3) && ShardId(prefix, j)[|head|..] == Padded(j, 3);
  }

  /** The eighth shard is number 007. */
  lemma EighthShard(prefix: string)
    ensures ShardId(prefix, 7) == prefix + "_007"
  {
    assert Padded(7, 3) == ZeroFill("7", 3) == ZeroFill("0" + "7", 3) == ZeroFill("0" + ("0" + "7"), 3);
  }

  // ---- The shards of a payload -------------------------------------------------------

  /** Where shard `i` ends. */
  function EndOf(total: int, shardSize: int, i: int): int {
    if i * shardSize + shardSize > total then total else i * shardSize + shardSize
  }

  /** All shards are there, under their ids, and cut the payload at multiples of the shard size. */
  ghost predicate Cuts(split: ShardSet, prefix: string, payload: Bytes, n: nat) {
    && |split.ids| == n
    && (forall i | 0 <= i < n :: split.ids[i] == ShardId(prefix, i))
    && (forall i | 0 <= i < n :: CutAt(split, prefix, payload, i))
  }

  ghost predicate CutAt(split: ShardSet, prefix: string, payload: Bytes, i: nat) {
    && ShardId(prefix, i) in split.shards
    && 0 <= i * split.shardSize < EndOf(|payload|, split.shardSize, i) <= |payload|
    && split.shards[ShardId(prefix, i)] == payload[i * split.shardSize..EndOf(|payload|, split.shardSize, i)]
  }

  lemma Scaled(a: int, b: int, size: int)
    requires a <= b && size >= 0
    ensures a * size <= b * size
  {
    assert (b - a) * size >= 0;
  }

  /** Rounding up: the shards reach the end of the payload, and the last one starts before it. */
  lemma CeilingBounds(total: nat, size: int)
    requires size > 0 && total + size - 1 <= MAX_INT64
    ensures var n := NumShards(total, size);
            n >= 0 && n * size >= total && (n - 1) * size < total && (total > 0 <==> n > 0)
  {
    var x := total + size - 1;
    var q, r := x / size, x % size;
    assert x == q * size + r && 0 <= r < size;
    assert Wrap64(x) == x;
    assert (q - 1) * size == q * size - size;
    if total == 0 {
      assert q == 0;
    }
  }

  lemma StartsInside(n: int, i: int, size: int, total: int)
    requires size > 0 && 0 <= i < n && (n - 1) * size < total
    ensures 0 <= i * size < total
    ensures i < n - 1 ==> i * size + size < total
  {
    Scaled(0, i, size);
    Scaled(i, n - 1, size);
    if i < n - 1 {
      Scaled(i + 1, n - 1, size);
      assert (i + 1) * size == i * size + size;
    }
  }

  lemma LastEndsAtTotal(total: nat, size: int, n: int)
    requires size > 0 && n * size >= total
    ensures EndOf(total, size, n - 1) == total || (n - 1) * size + size == total
  {
    assert (n - 1) * size + size == n * size;
  }

  /** The sum of the sizes that the overflow hits is negative, and so is the number of shards. */
  lemma OverflowGivesNoShards(total: nat, size: int)
    requires 0 < size <= MAX_INT64 && total <= MAX_INT64 && total + size - 1 > MAX_INT64
    ensures NumShards(total, size) <= 0
  {
    assert Wrap64(total + size - 1) == total + size - 1 - 0x1_0000_0000_0000_0000;
  }

  /** The split of a payload: all its cuts, or nothing when the sum of the sizes overflows. */
  ghost predicate IsSplitOf(crypt: Crypt, c: Splitter, data: Bytes, split: ShardSet) {
    var payload := Encrypted(crypt, c, data);
    && split.shardSize == c.shardSize > 0 && split.totalSize == |payload|
    && (|payload| + c.shardSize - 1 <= MAX_INT64 ==> Cuts(split, c.prefix, payload, NumShards(|payload|, c.shardSize)))
    && (|payload| + c.shardSize - 1 > MAX_INT64 ==> split.ids == [] && split.shards == map[])
  }

  /** Cuts the (encrypted) payload and lists the ids in order. */
  method Compress(crypt: Crypt, c: Splitter, data: Bytes) returns (split: ShardSet)
    requires 0 < c.shardSize <= MAX_INT64 && |Encrypted(crypt, c, data)| <= MAX_INT64
    ensures IsSplitOf(crypt, c, data, split)
  {
    var payload := if c.password != "" then crypt.encrypt(data, c.password) else data;
    var total := |payload|;
    var numShards := NumShards(total, c.shardSize);
    if total + c.shardSize - 1 <= MAX_INT64 {
      CeilingBounds(total, c.shardSize);
    } else {
      OverflowGivesNoShards(total, c.shardSize);
    }
    var shards: map<string, Bytes> := map[];
    split := ShardSet(total, c.shardSize, [], shards);
    var i := 0;
    while i < numShards
      invariant i == 0 || 0 <= i <= numShards
      invariant i == 0 ==> shards == map[]
      invariant forall j | 0 <= j < i :: CutAt(split.(shards := shards), c.prefix, payload, j)
    {
      StartsInside(numShards, i, c.shardSize, total);
      var start := i * c.shardSize;
      var end := start + c.shardSize;
      if end > total {
        end := total;
      }
      ghost var before := split.(shards := shards);
      shards := shards[ShardId(c.prefix, i) := payload[start..end]];
      forall j | 0 <= j < i ensures CutAt(split.(shards := shards), c.prefix, payload, j) {
        IdsAreDistinct(c.prefix, i, j);
        assert CutAt(before, c.prefix, payload, j);
      }
      i := i + 1;
    }
    var ids: seq<string> := [];
    i := 0;
    while i < numShards
      invariant i == 0 || 0 <= i <= numShards
      invariant |ids| == i && forall j | 0 <= j < i :: ids[j] == ShardId(c.prefix, j)
    {
      ids := ids + [ShardId(c.prefix, i)];
      i := i + 1;
    }
    ghost var cut := split.(shards := shards);
    split := ShardSet(total, c.shardSize, ids, shards);
    assert forall j: nat :: CutAt(cut, c.prefix, payload, j) ==> CutAt(split, c.prefix, payload, j);
  }

  // ---- Merging -------------------------------------------------------------------------

  /** The shards in the order of the given ids, or the first id that is missing. */
  function Merge(shards: map<string, Bytes>, ids: seq<string>): Result<Bytes, ShardError> {
    if ids == [] then Success([])
    else
      var before, last := Merge(shards, ids[..|ids| - 1]), ids[|ids| - 1];
      if before.Failure? then before
      else if last !in shards then Failure(MissingShard(last))
      else Success(before.value + shards[last])
  }

  function Merged(crypt: Crypt, c: Splitter, split: ShardSet): Result<Bytes, ShardError> {
    if split.ids == [] then Failure(EmptyList)
    else
      var merged := Merge(split.shards, split.ids);
      if merged.Failure? || c.password == "" then merged
      else
        var plain := crypt.decrypt(merged.value, c.password);
        if plain.None? then Failure(BadPassword) else Success(plain.value)
  }

  lemma {:induction false} MergeStopsAtMissing(shards: map<string, Bytes>, ids: seq<string>, k: nat)
    requires k < |ids| && ids[k] !in shards && forall j | 0 <= j < k :: ids[j] in shards
    ensures Merge(shards, ids) == Failure(MissingShard(ids[k]))
  {
    if k < |ids| - 1 {
      MergeStopsAtMissing(shards, ids[..|ids| - 1], k);
    } else {
      MergeSucceeds(shards, ids[..k]);
    }
  }

  lemma {:induction false} MergeSucceeds(shards: map<string, Bytes>, ids: seq<string>)
    requires forall j | 0 <= j < |ids| :: ids[j] in shards
    ensures Merge(shards, ids).Success?
  {
    if ids != [] {
      MergeSucceeds(shards, ids[..|ids| - 1]);
    }
  }

  method Decompress(crypt: Crypt, c: Splitter, split: ShardSet) returns (r: Result<Bytes, ShardError>)
    ensures r == Merged(crypt, c, split)
  {
    if |split.ids| == 0 {
      return Failure(EmptyList);
    }
    var buf: Bytes := [];
    var i := 0;
    while i < |split.ids|
      invariant 0 <= i <= |split.ids|
      invariant Merge(split.shards, split.ids[..i]) == Success(buf)
      invariant forall j | 0 <= j < i :: split.ids[j] in split.shards
    {
      assert split.ids[..i + 1][..i] == split.ids[..i];
      var id := split.ids[i];
      if id !in split.shards {
        MergeStopsAtMissing(split.shards, split.ids, i);
        return Failure(MissingShard(id));
      }
      buf := buf + split.shards[id];
      i := i + 1;
    }
    assert split.ids[..i] == split.ids;
    if c.password != "" {
      var plain := crypt.decrypt(buf, c.password);
      if plain.None? {
        return Failure(BadPassword);
      }
      return Success(plain.value);
    }
    return Success(buf);
  }

  /** Merging fails exactly on an empty list, a missing shard, or a password that does not open the merged bytes. */
  lemma MergedFailsIff(crypt: Crypt, c: Splitter, split: ShardSet)
    ensures var merged := Merge(split.shards, split.ids);
            Merged(crypt, c, split).Failure? <==>
            || split.ids == []
            || (exists i | 0 <= i < |split.ids| :: split.ids[i] !in split.shards)
            || (merged.Success? && c.password != "" && crypt.decrypt(merged.value, c.password).None?)
  {
    if forall i | 0 <= i < |split.ids| :: split.ids[i] in split.shards {
      MergeSucceeds(split.shards, split.ids);
    } else {
      MergeFails(split.shards, split.ids);
    }
  }

  lemma {:induction false} MergeFails(shards: map<string, Bytes>, ids: seq<string>)
    requires exists i | 0 <= i < |ids| :: ids[i] !in shards
    ensures Merge(shards, ids).Failure?
  {
    var i :| 0 <= i < |ids| && ids[i] !in shards;
    if i < |ids| - 1 {
      assert ids[..|ids| - 1][i] == ids[i];
      MergeFails(shards, ids[..|ids| - 1]);
    }
  }

  // ---- Round trip --------------------------------------------------------------------------

  lemma {:induction false} MergeOfCuts(split: ShardSet, prefix: string, payload: Bytes, n: nat, k: nat)
    requires Cuts(split, prefix, payload, n) && k <= n && split.shardSize > 0
    ensures Merge(split.shards, split.ids[..k]) ==
            Success(if k == 0 then [] else payload[..EndOf(|payload|, split.shardSize, k - 1)])
    ensures k > 0 ==> 0 <= EndOf(|payload|, split.shardSize, k - 1) <= |payload|
  {
    if k > 0 {
      MergeOfCuts(split, prefix, payload, n, k - 1);
      assert split.ids[..k][..k - 1] == split.ids[..k - 1];
      assert CutAt(split, prefix, payload, k - 1);
      var start, end := (k - 1) * split.shardSize, EndOf(|payload|, split.shardSize, k - 1);
      assert start == (k - 2) * split.shardSize + split.shardSize;
      assert payload[..start] + payload[start..end] == payload[..end];
    }
  }

  /**
   * Merging the shards of a payload gives the payload back exactly when it is not empty and its size
   * plus the shard size stays in range; otherwise merging reports an empty list.
   */
  lemma RoundTripIff(crypt: Crypt, shardSize: int, password: string, prefix: string, data: Bytes, split: ShardSet)
    requires Correct(crypt) && IsSplitOf(crypt, NewSplitter(shardSize, password, prefix), data, split)
    ensures var c := NewSplitter(shardSize, password, prefix);
            && (Merged(crypt, c, split) == Success(data) <==>
                  0 < |Encrypted(crypt, c, data)| && |Encrypted(crypt, c, data)| + c.shardSize - 1 <= MAX_INT64)
            && (Merged(crypt, c, split) == Success(data) || Merged(crypt, c, split) == Failure(EmptyList))
  {
    var c := NewSplitter(shardSize, password, prefix);
    var payload := Encrypted(crypt, c, data);
    if 0 < |payload| && |payload| + c.shardSize - 1 <= MAX_INT64 {
      SplitMergesBack(c, payload, split);
    } else if |payload| == 0 && c.shardSize - 1 <= MAX_INT64 {
      CeilingBounds(0, c.shardSize);
    }
  }

  lemma SplitMergesBack(c: Splitter, payload: Bytes, split: ShardSet)
    requires c.shardSize > 0 && split.shardSize == c.shardSize && 0 < |payload| &&
             |payload| + c.shardSize - 1 <= MAX_INT64
    requires Cuts(split, c.prefix, payload, NumShards(|payload|, c.shardSize))
    ensures split.ids != [] && Merge(split.shards, split.ids) == Success(payload)
  {
    var n := NumShards(|payload|, c.shardSize);
    CeilingBounds(|payload|, c.shardSize);
    LastEndsAtTotal(|payload|, c.shardSize, n);
    MergeOfCuts(split, c.prefix, payload, n, n);
    assert split.ids[..n] == split.ids && payload[..|payload|] == payload;
  }

  /** Every shard is full, except possibly the last, which is not empty. */
  lemma ShardsAreFull(crypt: Crypt, c: Splitter, data: Bytes, split: ShardSet, i: nat)
    requires IsSplitOf(crypt, c, data, split) && i < |split.ids|
    ensures split.ids[i] in split.shards
    ensures i < |split.ids| - 1 ==> |split.shards[split.ids[i]]| == c.shardSize
    ensures 0 < |split.shards[split.ids[i]]| <= c.shardSize
    ensures forall j | 0 <= j < |split.ids| && j != i :: split.ids[j] != split.ids[i]
  {
    var payload := Encrypted(crypt, c, data);
    var n := NumShards(|payload|, c.shardSize);
    CeilingBounds(|payload|, c.shardSize);
    StartsInside(n, i, c.shardSize, |payload|);
    assert CutAt(split, c.prefix, payload, i);
    forall j: nat | j < n && j != i ensures split.ids[j] != split.ids[i] {
      IdsAreDistinct(c.prefix, i, j);
    }
  }
}
