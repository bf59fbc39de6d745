/** Schema migrations: pending files are executed in version order and recorded one by one. */
module SchemaMigrator {
  import opened Prelude
  import opened Decimal
  import Transfer

  datatype File = File(version: int, filename: string, content: string)

  /**
   * What one read of the migration table through SelectAll brings: an error, every row, or only these
   * rows, because a page read broke and the loop took the short page for the last one.
   */
  datatype Read = Fails | Complete | Cut(rows: set<int>)

  /** What the database does with the SQL and with the record of one migration. */
  datatype SqlFate = Fine | SqlFails | RecordFails

  /** One attempt to apply a file: the read that Apply starts with, and what follows. */
  datatype Fate = Fate(read: Read, sql: SqlFate)

  /** What a run leaves behind: each attempt to execute a file, and each record written. */
  datatype Event = Executed(version: int) | Recorded(version: int)

  datatype Error =
    | LoadFailed | ReadFailed
    | AlreadyApplied(version: int) | ExecFailed(version: int) | InsertFailed(version: int)

  // ---- Loading ---------------------------------------------------------------------

  ghost predicate Ascending(files: seq<File>) {
    forall i, j | 0 <= i < j < |files| :: files[i].version <= files[j].version
  }

  ghost predicate DistinctVersions(files: seq<File>) {
    forall i, j | 0 <= i < j < |files| :: files[i].version != files[j].version
  }

  ghost predicate AllAtLeast(files: seq<File>, version: int) {
    forall i | 0 <= i < |files| :: files[i].version >= version
  }

  ghost predicate NoneWith(files: seq<File>, version: int) {
    forall i | 0 <= i < |files| :: files[i].version != version
  }

  lemma AscendingCons(f: File, rest: seq<File>)
    ensures Ascending([f] + rest) <==> AllAtLeast(rest, f.version) && Ascending(rest)
  {
    var all := [f] + rest;
    if Ascending(all) {
      forall i | 0 <= i < |rest| ensures rest[i].version >= f.version {
        assert all[0] == f && all[i + 1] == rest[i];
      }
      forall i, j | 0 <= i < j < |rest| ensures rest[i].version <= rest[j].version {
        assert all[i + 1] == rest[i] && all[j + 1] == rest[j];
      }
    }
    if AllAtLeast(rest, f.version) && Ascending(rest) {
      forall i, j | 0 <= i < j < |all| ensures all[i].version <= all[j].version {
        assert all[j] == rest[j - 1] && (i > 0 ==> all[i] == rest[i - 1]);
      }
    }
  }

  lemma DistinctCons(f: File, rest: seq<File>)
    ensures DistinctVersions([f] + rest) <==> NoneWith(rest, f.version) && DistinctVersions(rest)
  {
    var all := [f] + rest;
    if DistinctVersions(all) {
      forall i | 0 <= i < |rest| ensures rest[i].version != f.version {
        assert all[0] == f && all[i + 1] == rest[i];
      }
      forall i, j | 0 <= i < j < |rest| ensures rest[i].version != rest[j].version {
        assert all[i + 1] == rest[i] && all[j + 1] == rest[j];
      }
    }
    if NoneWith(rest, f.version) && DistinctVersions(rest) {
      forall i, j | 0 <= i < j < |all| ensures all[i].version != all[j].version {
        assert all[j] == rest[j - 1] && (i > 0 ==> all[i] == rest[i - 1]);
      }
    }
  }

  function Insert(f: File, sorted: seq<File>): seq<File> {
    if sorted == [] || f.version <= sorted[0].version then [f] + sorted else [sorted[0]] + Insert(f, sorted[1..])
  }

  /** `sort.Slice` by version. */
  function SortByVersion(files: seq<File>): seq<File> {
    if files == [] then [] else Insert(files[0], SortByVersion(files[1..]))
  }

  lemma {:induction false} InsertKeepsBound(f: File, sorted: seq<File>, version: int)
    requires AllAtLeast(sorted, version) && f.version >= version
    ensures AllAtLeast(Insert(f, sorted), version)
  {
    if sorted != [] && f.version > sorted[0].version {
      InsertKeepsBound(f, sorted[1..], version);
    }
  }

  lemma {:induction false} InsertSorts(f: File, sorted: seq<File>)
    requires Ascending(sorted)
    ensures Ascending(Insert(f, sorted))
    ensures multiset(Insert(f, sorted)) == multiset{f} + multiset(sorted)
  {
    if sorted == [] {
    } else {
      assert sorted == [sorted[0]] + sorted[1..];
      AscendingCons(sorted[0], sorted[1..]);
      if f.version <= sorted[0].version {
        AscendingCons(f, sorted);
      } else {
        InsertSorts(f, sorted[1..]);
        InsertKeepsBound(f, sorted[1..], sorted[0].version);
        AscendingCons(sorted[0], Insert(f, sorted[1..]));
      }
    }
  }

  lemma {:induction false} SortSorts(files: seq<File>)
    ensures Ascending(SortByVersion(files))
    ensures multiset(SortByVersion(files)) == multiset(files)
  {
    if files != [] {
      SortSorts(files[1..]);
      InsertSorts(files[0], SortByVersion(files[1..]));
      assert files == [files[0]] + files[1..];
    }
  }

  /** The files whose version is not recorded, in order. */
  function Unrecorded(files: seq<File>, recorded: set<int>): seq<File> {
    if files == [] then []
    else (if files[0].version in recorded then [] else [files[0]]) + Unrecorded(files[1..], recorded)
  }

  function Pending(directory: seq<File>, recorded: set<int>): seq<File> {
    Unrecorded(SortByVersion(directory), recorded)
  }

  // ---- Reading the migration table ------------------------------------------------------

  /** An `INT` cell as the driver hands it over: MySQL's as an int64, pgx's as an int32. */
  datatype Cell = Int64(value: int) | Int32(value: int)

  function CellOf(kind: Transfer.Kind, version: int): Cell {
    if kind == Transfer.MySQL then Int64(version) else Int32(version)
  }

  /** The type switch on the version column knows int64 (and float64); any other type leaves a 0. */
  function VersionOf(cell: Cell): int {
    if cell.Int64? then cell.value else 0
  }

  function RowsSeen(recorded: set<int>, read: Read): set<int> {
    match read
    case Fails => {}
    case Complete => recorded
    case Cut(rows) => recorded * rows
  }

  /** The versions that `Applied` reports. */
  function Applied(kind: Transfer.Kind, recorded: set<int>, read: Read): Option<set<int>> {
    if read.Fails? then None else Some(set v | v in RowsSeen(recorded, read) :: VersionOf(CellOf(kind, v)))
  }

  /** From MySQL the rows seen; from Postgres at most the version 0, whatever is recorded. */
  lemma AppliedIs(kind: Transfer.Kind, recorded: set<int>, read: Read)
    requires !read.Fails?
    ensures forall v :: v in Applied(kind, recorded, read).value <==>
              if kind == Transfer.MySQL then v in RowsSeen(recorded, read)
              else v == 0 && exists u :: u in RowsSeen(recorded, read)
  {
    forall v | v in RowsSeen(recorded, read)
      ensures VersionOf(CellOf(kind, v)) in Applied(kind, recorded, read).value { }
  }

  function RowSet(rows: seq<int>): set<int> {
    set i | 0 <= i < |rows| :: rows[i]
  }

  ghost predicate DistinctRows(rows: seq<int>) {
    forall i, j | 0 <= i < j < |rows| :: rows[i] != rows[j]
  }

  /** The read that SelectAll makes of a table with these rows, in pages of 1000. */
  function ReadOf(rows: seq<int>, pages: seq<Transfer.PageFate>): Read {
    var (k, refused) := Transfer.Delivered(|rows|, 1000, pages);
    if refused then Fails else Cut(RowSet(rows[..k]))
  }

  /** A read that reports no error saw the whole table exactly when no page read broke before its last row. */
  lemma ReadSeesAllIff(rows: seq<int>, pages: seq<Transfer.PageFate>)
    requires DistinctRows(rows) && !ReadOf(rows, pages).Fails?
    ensures RowsSeen(RowSet(rows), ReadOf(rows, pages)) == RowSet(rows) <==> Transfer.NoReadBreaks(|rows|, 1000, pages)
  {
    var k := Transfer.Delivered(|rows|, 1000, pages).0;
    Transfer.SuccessIsWholeIff(Transfer.MySQL, |rows|, 1000, Transfer.Faults(None, pages));
    if k < |rows| {
      assert rows[k] in RowSet(rows);
      assert rows[k] !in RowSet(rows[..k]);
    } else {
      assert rows[..k] == rows;
    }
  }

  // ---- The migrator -------------------------------------------------------------------

  /** What a run of ApplyAll does, given the fate of each attempt. */
  datatype Outcome = Outcome(recorded: set<int>, events: seq<Event>, applied: seq<File>, error: Option<Error>)

  /** Attempts without a fate of their own meet no fault. */
  function FateAt(fates: seq<Fate>, i: nat): Fate {
    if i < |fates| then fates[i] else Fate(Complete, Fine)
  }

  function Later(fates: seq<Fate>): seq<Fate> {
    if fates == [] then [] else fates[1..]
  }

  /** The version is the primary key of the table, so a version that is there cannot be recorded again. */
  function ApplyOne(kind: Transfer.Kind, file: File, recorded: set<int>, fate: Fate): Outcome {
    var v, seen := file.version, Applied(kind, recorded, fate.read);
    if seen.None? then Outcome(recorded, [], [], Some(ReadFailed))
    else if v in seen.value then Outcome(recorded, [], [], Some(AlreadyApplied(v)))
    else if fate.sql == SqlFails then Outcome(recorded, [Executed(v)], [], Some(ExecFailed(v)))
    else if fate.sql == RecordFails || v in recorded then Outcome(recorded, [Executed(v)], [], Some(InsertFailed(v)))
    else Outcome(recorded + {v}, [Executed(v), Recorded(v)], [file], None)
  }

  function ApplyList(kind: Transfer.Kind, pending: seq<File>, recorded: set<int>, fates: seq<Fate>): Outcome
    decreases |pending|
  {
    if pending == [] then Outcome(recorded, [], [], None)
    else
      var one := ApplyOne(kind, pending[0], recorded, FateAt(fates, 0));
      if one.error.Some? then one
      else
        var rest := ApplyList(kind, pending[1..], one.recorded, Later(fates));
        Outcome(rest.recorded, one.events + rest.events, one.applied + rest.applied, rest.error)
  }

  /** One call of ApplyAll: the directory at that time, if it can be read, and what its reads and attempts meet. */
  datatype Call = Call(listing: Option<seq<File>>, read: Read, fates: seq<Fate>)

  function RunCall(kind: Transfer.Kind, call: Call, recorded: set<int>): Outcome {
    if call.listing.None? then Outcome(recorded, [], [], Some(LoadFailed))
    else if call.read.Fails? then Outcome(recorded, [], [], Some(ReadFailed))
    else ApplyList(kind, PendingOf(kind, call, recorded), recorded, call.fates)
  }

  function PendingOf(kind: Transfer.Kind, call: Call, recorded: set<int>): seq<File>
    requires call.listing.Some? && !call.read.Fails?
  {
    Pending(call.listing.value, Applied(kind, recorded, call.read).value)
  }

  lemma Reassociate<T>(a: seq<T>, b: seq<T>, c: seq<T>)
    ensures a + (b + c) == (a + b) + c
  {
  }

  /** The migration table, and the history of everything run against the database. */
  class Migrator {
    const kind: Transfer.Kind
    var recorded: set<int>
    ghost var history: seq<Event>

    constructor (kind: Transfer.Kind)
      ensures this.kind == kind && recorded == {} && history == []
    {
      this.kind, recorded, history := kind, {}, [];
    }

    /** Reads the table row by row and keeps the versions it understands. */
    method ReadApplied(read: Read) returns (applied: Option<set<int>>)
      ensures applied == Applied(kind, recorded, read)
    {
      if read.Fails? {
        return None;
      }
      var versions: set<int> := {};
      var rows := RowsSeen(recorded, read);
      var todo := rows;
      while |todo| > 0
        invariant todo <= rows
        invariant versions == set v | v in rows && v !in todo :: VersionOf(CellOf(kind, v))
        decreases |todo|
      {
        ghost var some := Pick(todo);
        assert some in todo;
        var v :| v in todo;
        versions := versions + {VersionOf(CellOf(kind, v))};
        todo := todo - {v};
      }
      NoElements(todo);
      assert versions == Applied(kind, recorded, read).value;
      return Some(versions);
    }

    /** One migration: refused if the read shows it, executed, then recorded. */
    method Apply(file: File, fate: Fate) returns (error: Option<Error>)
      modifies this
      ensures var out := ApplyOne(kind, file, old(recorded), fate);
              recorded == out.recorded && history == old(history) + out.events && error == out.error
    {
      var applied := ReadApplied(fate.read);
      if applied.None? {
        return Some(ReadFailed);
      }
      if file.version in applied.value {
        return Some(AlreadyApplied(file.version));
      }
      history := history + [Executed(file.version)];
      if fate.sql == SqlFails {
        return Some(ExecFailed(file.version));
      }
      if fate.sql == RecordFails || file.version in recorded {
        return Some(InsertFailed(file.version));
      }
      recorded := recorded + {file.version};
      history := history + [Recorded(file.version)];
      return None;
    }

    method ApplyAll(call: Call) returns (applied: seq<File>, error: Option<Error>)
      modifies this
      ensures var out := RunCall(kind, call, old(recorded));
              && recorded == out.recorded && history == old(history) + out.events
              && applied == out.applied && error == out.error
    {
      if call.listing.None? {
        return [], Some(LoadFailed);
      }
      var seen := ReadApplied(call.read);
      if seen.None? {
        return [], Some(ReadFailed);
      }
      var pending := PendingFiles(call.listing.value, seen.value);
      applied, error := ApplyEach(pending, call.fates);
    }

    method ApplyEach(pending: seq<File>, fates: seq<Fate>) returns (applied: seq<File>, error: Option<Error>)
      modifies this
      ensures var out := ApplyList(kind, pending, old(recorded), fates);
              && recorded == out.recorded && history == old(history) + out.events
              && applied == out.applied && error == out.error
    {
      applied := [];
      ghost var whole := ApplyList(kind, pending, recorded, fates);
      var i, left := 0, fates;
      while i < |pending|
        invariant 0 <= i <= |pending|
        invariant var rest := ApplyList(kind, pending[i..], recorded, left);
                  && whole.recorded == rest.recorded && whole.error == rest.error
                  && old(history) + whole.events == history + rest.events
                  && whole.applied == applied + rest.applied
      {
        ghost var one := ApplyOne(kind, pending[i], recorded, FateAt(left, 0));
        ghost var before := history;
        assert pending[i..][1..] == pending[i + 1..];
        error := Apply(pending[i], FateAt(left, 0));
        if error.Some? {
          return;
        }
        ghost var after := ApplyList(kind, pending[i + 1..], recorded, Later(left));
        Reassociate(before, one.events, after.events);
        Reassociate(applied, one.applied, after.applied);
        applied := applied + [pending[i]];
        i, left := i + 1, Later(left);
      }
      error := None;
    }

    /** Sorts the directory by version, and keeps what is not among the applied versions. */
    method PendingFiles(directory: seq<File>, applied: set<int>) returns (pending: seq<File>)
      ensures pending == Pending(directory, applied)
    {
      var files := SortByVersion(directory);
      pending := [];
      var i := 0;
      while i < |files|
        invariant 0 <= i <= |files|
        invariant Unrecorded(files, applied) == pending + Unrecorded(files[i..], applied)
      {
        assert files[i..][1..] == files[i + 1..];
        if files[i].version !in applied {
          pending := pending + [files[i]];
        }
        i := i + 1;
      }
    }
  }

  lemma {:induction false} PendingIsShort(files: seq<File>, recorded: set<int>)
    ensures |Unrecorded(files, recorded)| <= |files|
    ensures forall f | f in Unrecorded(files, recorded) :: f in files && f.version !in recorded
    ensures forall f | f in files && f.version !in recorded :: f in Unrecorded(files, recorded)
  {
    if files != [] {
      PendingIsShort(files[1..], recorded);
      assert files == [files[0]] + files[1..];
    }
  }

  lemma {:induction false} UnrecordedKeepsBounds(files: seq<File>, recorded: set<int>, version: int)
    ensures AllAtLeast(files, version) ==> AllAtLeast(Unrecorded(files, recorded), version)
    ensures NoneWith(files, version) ==> NoneWith(Unrecorded(files, recorded), version)
  {
    if files != [] {
      UnrecordedKeepsBounds(files[1..], recorded, version);
    }
  }

  lemma {:induction false} PendingIsAscending(files: seq<File>, recorded: set<int>)
    requires Ascending(files)
    ensures Ascending(Unrecorded(files, recorded))
    ensures DistinctVersions(files) ==> DistinctVersions(Unrecorded(files, recorded))
  {
    if files != [] {
      assert files == [files[0]] + files[1..];
      AscendingCons(files[0], files[1..]);
      DistinctCons(files[0], files[1..]);
      PendingIsAscending(files[1..], recorded);
      UnrecordedKeepsBounds(files[1..], recorded, files[0].version);
      AscendingCons(files[0], Unrecorded(files[1..], recorded));
      DistinctCons(files[0], Unrecorded(files[1..], recorded));
    }
  }

  // ---- One run --------------------------------------------------------------------------

  /** The versions executed, in the order of execution. */
  function Executions(events: seq<Event>): seq<int> {
    if events == [] then []
    else Execution(events[0]) + Executions(events[1..])
  }

  ghost predicate StrictlyAscending(s: seq<int>) {
    forall i, j | 0 <= i < j < |s| :: s[i] < s[j]
  }

  function Versions(files: seq<File>): set<int> {
    set i | 0 <= i < |files| :: files[i].version
  }

  lemma VersionsOfCons(f: File, files: seq<File>)
    ensures Versions([f] + files) == {f.version} + Versions(files)
  {
    var all := [f] + files;
    assert all[0] == f && forall i | 0 <= i < |files| :: all[i + 1] == files[i];
  }

  function VersionList(files: seq<File>): seq<int> {
    seq(|files|, i requires 0 <= i < |files| => files[i].version)
  }

  lemma VersionListAscends(files: seq<File>, n: nat)
    requires n <= |files| && Ascending(files) && DistinctVersions(files)
    ensures StrictlyAscending(VersionList(files[..n]))
  {
  }

  /** An attempt that records its file: the read works and does not show it, and it is not in the table. */
  ghost predicate Passes(kind: Transfer.Kind, recorded: set<int>, file: File, fate: Fate) {
    && !fate.read.Fails? && file.version !in Applied(kind, recorded, fate.read).value
    && fate.sql == Fine && file.version !in recorded
  }

  /** An attempt that executes a file that is in the table, because its read does not show it. */
  ghost predicate Blind(kind: Transfer.Kind, recorded: set<int>, file: File, fate: Fate) {
    && !fate.read.Fails? && file.version !in Applied(kind, recorded, fate.read).value
    && file.version in recorded
  }

  lemma {:induction false} RunEndsAtPrefix(kind: Transfer.Kind, pending: seq<File>, recorded: set<int>,
                                           fates: seq<Fate>)
    ensures var out := ApplyList(kind, pending, recorded, fates);
            && out.applied <= pending && out.recorded == recorded + Versions(out.applied)
            && (out.error.None? <==> out.applied == pending)
            && (out.error.Some? ==>
                  |out.applied| < |pending| &&
                  !Passes(kind, out.recorded, pending[|out.applied|], FateAt(fates, |out.applied|)))
    decreases |pending|
  {
    RecordsApplied(kind, pending, recorded, fates);
    if pending != [] && Passes(kind, recorded, pending[0], FateAt(fates, 0)) {
      var rest := ApplyList(kind, pending[1..], recorded + {pending[0].version}, Later(fates));
      RunEndsAtPrefix(kind, pending[1..], recorded + {pending[0].version}, Later(fates));
      PrefixOfCons(pending, rest.applied);
      assert FateAt(Later(fates), |rest.applied|) == FateAt(fates, |rest.applied| + 1);
    } else if pending != [] {
      StopsHere(kind, pending, recorded, fates);
    }
  }

  /** The `i`-th attempt of a run that applied all files before it. */
  ghost predicate PassesAt(kind: Transfer.Kind, pending: seq<File>, recorded: set<int>, fates: seq<Fate>, i: nat) {
    i < |pending| && Passes(kind, recorded + Versions(pending[..i]), pending[i], FateAt(fates, i))
  }

  /**
   * One run records exactly the versions of a prefix of its list, returns that prefix, and fails exactly
   * when the prefix is proper: at the first attempt that does not pass.
   */
  lemma RunRecordsPrefix(kind: Transfer.Kind, pending: seq<File>, recorded: set<int>, fates: seq<Fate>)
    ensures var out := ApplyList(kind, pending, recorded, fates);
            && out.applied <= pending && out.recorded == recorded + Versions(out.applied)
            && (out.error.None? <==> out.applied == pending)
            && (forall i: nat | i < |out.applied| :: PassesAt(kind, pending, recorded, fates, i))
            && (out.error.Some? ==> !PassesAt(kind, pending, recorded, fates, |out.applied|))
  {
    var out := ApplyList(kind, pending, recorded, fates);
    RunEndsAtPrefix(kind, pending, recorded, fates);
    forall i: nat | i < |out.applied| ensures PassesAt(kind, pending, recorded, fates, i) {
      AppliedPassed(kind, pending, recorded, fates, i);
    }
    assert out.applied == pending[..|out.applied|];
  }

  lemma {:induction false} RecordsApplied(kind: Transfer.Kind, pending: seq<File>, recorded: set<int>, fates: seq<Fate>)
    ensures var out := ApplyList(kind, pending, recorded, fates);
            out.recorded == recorded + Versions(out.applied)
    decreases |pending|
  {
    if pending != [] && Passes(kind, recorded, pending[0], FateAt(fates, 0)) {
      RecordsApplied(kind, pending[1..], recorded + {pending[0].version}, Later(fates));
      VersionsOfCons(pending[0], ApplyList(kind, pending[1..], recorded + {pending[0].version}, Later(fates)).applied);
    } else if pending != [] {
      StopsHere(kind, pending, recorded, fates);
    }
  }

  lemma PrefixOfCons(files: seq<File>, prefix: seq<File>)
    requires files != [] && prefix <= files[1..]
    ensures [files[0]] + prefix <= files
    ensures [files[0]] + prefix == files <==> prefix == files[1..]
    ensures |prefix| + 1 < |files| ==> files[1..][|prefix|] == files[|prefix| + 1]
  {
    assert files == [files[0]] + files[1..];
  }

  lemma StopsHere(kind: Transfer.Kind, pending: seq<File>, recorded: set<int>, fates: seq<Fate>)
    requires pending != [] && !Passes(kind, recorded, pending[0], FateAt(fates, 0))
    ensures var out := ApplyList(kind, pending, recorded, fates);
            out.applied == [] && out.recorded == recorded == recorded + Versions([]) && out.error.Some?
  {
    assert Versions([]) == {};
  }

  lemma {:induction false} AppliedPassed(kind: Transfer.Kind, pending: seq<File>, recorded: set<int>,
                                         fates: seq<Fate>, i: nat)
    requires i < |ApplyList(kind, pending, recorded, fates).applied| <= |pending|
    ensures Passes(kind, recorded + Versions(pending[..i]), pending[i], FateAt(fates, i))
    decreases i
  {
    var v, rest := pending[0].version, ApplyList(kind, pending[1..], recorded + {pending[0].version}, Later(fates));
    if i == 0 {
      assert recorded + Versions(pending[..0]) == recorded;
    } else {
      AppliedPassed(kind, pending[1..], recorded + {v}, Later(fates), i - 1);
      assert pending[..i] == [pending[0]] + pending[1..][..i - 1];
      VersionsOfCons(pending[0], pending[1..][..i - 1]);
      assert recorded + {v} + Versions(pending[1..][..i - 1]) == recorded + Versions(pending[..i]);
      assert FateAt(Later(fates), i - 1) == FateAt(fates, i);
    }
  }

  function Execution(e: Event): seq<int> {
    if e.Executed? then [e.version] else []
  }

  lemma ExecutionsCons(e: Event, rest: seq<Event>)
    ensures Executions([e] + rest) == Execution(e) + Executions(rest)
  {
    assert ([e] + rest)[1..] == rest;
  }

  /** How many files a run executes: those it applied, and the one it failed on if it got that far. */
  function Attempted(out: Outcome): nat {
    |out.applied| + (if out.error.Some? && (out.error.value.ExecFailed? || out.error.value.InsertFailed?) then 1 else 0)
  }

  /** The events of one attempt, before those of the rest of the run. */
  lemma ExecutionsOfAttempt(kind: Transfer.Kind, file: File, recorded: set<int>, fate: Fate, rest: seq<Event>)
    ensures var one := ApplyOne(kind, file, recorded, fate);
            Executions(one.events + rest) == (if Attempted(one) == 1 then [file.version] else []) + Executions(rest)
  {
    var v, one := file.version, ApplyOne(kind, file, recorded, fate);
    if one.error.None? {
      assert one.events + rest == [Executed(v)] + ([Recorded(v)] + rest);
      ExecutionsCons(Executed(v), [Recorded(v)] + rest);
      ExecutionsCons(Recorded(v), rest);
    } else if Attempted(one) == 1 {
      ExecutionsCons(Executed(v), rest);
    } else {
      assert one.events + rest == rest;
    }
  }

  lemma VersionListOfPrefix(pending: seq<File>, n: nat)
    requires n < |pending|
    ensures VersionList(pending[..n + 1]) == [pending[0].version] + VersionList(pending[1..][..n])
    ensures VersionList(pending[..0]) == []
  {
  }

  /**
   * A run executes the files it applied and the one it failed on, in list order; an attempt that cannot
   * read executes nothing.
   */
  lemma {:induction false} RunExecutesAttempted(kind: Transfer.Kind, pending: seq<File>, recorded: set<int>,
                                                fates: seq<Fate>)
    ensures var out := ApplyList(kind, pending, recorded, fates);
            Attempted(out) <= |pending| && Executions(out.events) == VersionList(pending[..Attempted(out)])
    decreases |pending|
  {
    if pending != [] {
      var one := ApplyOne(kind, pending[0], recorded, FateAt(fates, 0));
      if one.error.None? {
        RunExecutesAttempted(kind, pending[1..], one.recorded, Later(fates));
        ExecutesOn(kind, pending, recorded, fates);
      } else {
        ExecutesHere(kind, pending, recorded, fates);
      }
    }
  }

  lemma ExecutesHere(kind: Transfer.Kind, pending: seq<File>, recorded: set<int>, fates: seq<Fate>)
    requires pending != [] && ApplyOne(kind, pending[0], recorded, FateAt(fates, 0)).error.Some?
    ensures var out := ApplyList(kind, pending, recorded, fates);
            Attempted(out) <= |pending| && Executions(out.events) == VersionList(pending[..Attempted(out)])
  {
    var one := ApplyOne(kind, pending[0], recorded, FateAt(fates, 0));
    ExecutionsOfAttempt(kind, pending[0], recorded, FateAt(fates, 0), []);
    assert one.events + [] == one.events;
    VersionListOfPrefix(pending, 0);
  }

  lemma ExecutesOn(kind: Transfer.Kind, pending: seq<File>, recorded: set<int>, fates: seq<Fate>)
    requires pending != []
    requires var one := ApplyOne(kind, pending[0], recorded, FateAt(fates, 0));
             var rest := ApplyList(kind, pending[1..], one.recorded, Later(fates));
             && one.error.None? && Attempted(rest) <= |pending| - 1
             && Executions(rest.events) == VersionList(pending[1..][..Attempted(rest)])
    ensures var out := ApplyList(kind, pending, recorded, fates);
            Attempted(out) <= |pending| && Executions(out.events) == VersionList(pending[..Attempted(out)])
  {
    var one := ApplyOne(kind, pending[0], recorded, FateAt(fates, 0));
    var rest := ApplyList(kind, pending[1..], one.recorded, Later(fates));
    ExecutionsOfAttempt(kind, pending[0], recorded, FateAt(fates, 0), rest.events);
    VersionListOfPrefix(pending, Attempted(rest));
  }

  /** The error of an attempt says how far it got. */
  lemma ErrorNamesCause(kind: Transfer.Kind, file: File, recorded: set<int>, fate: Fate)
    ensures match ApplyOne(kind, file, recorded, fate).error
            case None => Passes(kind, recorded, file, fate)
            case Some(ReadFailed) => fate.read.Fails?
            case Some(AlreadyApplied(v)) =>
              v == file.version && !fate.read.Fails? && v in Applied(kind, recorded, fate.read).value
            case Some(ExecFailed(v)) => v == file.version && fate.sql == SqlFails
            case Some(InsertFailed(v)) => v == file.version && (fate.sql == RecordFails || v in recorded)
            case Some(LoadFailed) => false
  {
  }

  ghost predicate NoneRecorded(pending: seq<File>, recorded: set<int>) {
    forall i | 0 <= i < |pending| :: pending[i].version !in recorded
  }

  /** On MySQL, a run without any fault still fails exactly when a pending version repeats. */
  lemma {:induction false} FaultlessRunSucceedsIff(pending: seq<File>, recorded: set<int>)
    requires NoneRecorded(pending, recorded)
    ensures ApplyList(Transfer.MySQL, pending, recorded, []).error.None? <==> DistinctVersions(pending)
    decreases |pending|
  {
    if pending != [] {
      var v, rest := pending[0].version, pending[1..];
      assert pending == [pending[0]] + rest && v !in recorded;
      AppliedIs(Transfer.MySQL, recorded, Complete);
      DistinctCons(pending[0], rest);
      if NoneWith(rest, v) {
        FaultlessRunSucceedsIff(rest, recorded + {v});
      } else {
        var i :| 0 <= i < |rest| && rest[i].version == v;
        StopsAtRecorded(Transfer.MySQL, rest, recorded + {v}, [], i);
      }
    }
  }

  lemma {:induction false} StopsAtRecorded(kind: Transfer.Kind, pending: seq<File>, recorded: set<int>,
                                           fates: seq<Fate>, k: nat)
    requires k < |pending| && pending[k].version in recorded
    ensures ApplyList(kind, pending, recorded, fates).error.Some?
    decreases k
  {
    if k > 0 && ApplyOne(kind, pending[0], recorded, FateAt(fates, 0)).error.None? {
      StopsAtRecorded(kind, pending[1..], recorded + {pending[0].version}, Later(fates), k - 1);
    }
  }

  // ---- Many runs ---------------------------------------------------------------------------

  function RecordedAfter(kind: Transfer.Kind, calls: seq<Call>): set<int> {
    if calls == [] then {}
    else RunCall(kind, calls[|calls| - 1], RecordedAfter(kind, calls[..|calls| - 1])).recorded
  }

  function HistoryOf(kind: Transfer.Kind, calls: seq<Call>): seq<Event> {
    if calls == [] then []
    else
      var before := calls[..|calls| - 1];
      HistoryOf(kind, before) + RunCall(kind, calls[|calls| - 1], RecordedAfter(kind, before)).events
  }

  lemma SortKeepsDistinct(files: seq<File>)
    requires DistinctVersions(files)
    ensures DistinctVersions(SortByVersion(files))
  {
    SortSorts(files);
    var sorted := SortByVersion(files);
    forall i, j | 0 <= i < j < |sorted| ensures sorted[i].version != sorted[j].version {
      if sorted[i].version == sorted[j].version {
        assert sorted[i] in multiset(sorted) && sorted[j] in multiset(sorted);
        var a :| 0 <= a < |files| && files[a] == sorted[i];
        var b :| 0 <= b < |files| && files[b] == sorted[j];
        assert a == b;
        RepeatedElement(sorted, i, j);
        UniqueElement(files, a);
      }
    }
  }

  lemma RepeatedElement(s: seq<File>, i: nat, j: nat)
    requires i < j < |s| && s[i] == s[j]
    ensures multiset(s)[s[i]] >= 2
  {
    assert s == s[..i] + [s[i]] + s[i + 1..j] + [s[j]] + s[j + 1..];
  }

  lemma UniqueElement(s: seq<File>, a: nat)
    requires a < |s| && DistinctVersions(s)
    ensures multiset(s)[s[a]] == 1
  {
    assert s == s[..a] + [s[a]] + s[a + 1..];
    assert s[a] !in s[..a] && s[a] !in s[a + 1..];
  }

  /** What is pending after any read: ascending, distinct, and exactly the files the read does not show. */
  lemma PendingIsReady(directory: seq<File>, applied: set<int>)
    ensures var pending := Pending(directory, applied);
            && Ascending(pending) && (DistinctVersions(directory) ==> DistinctVersions(pending))
            && |pending| <= |directory|
            && forall f :: f in pending <==> f in directory && f.version !in applied
  {
    var sorted := SortByVersion(directory);
    SortSorts(directory);
    if DistinctVersions(directory) {
      SortKeepsDistinct(directory);
    }
    PendingIsShort(sorted, applied);
    PendingIsAscending(sorted, applied);
    assert |sorted| == |multiset(sorted)| == |multiset(directory)| == |directory|;
    forall f ensures f in sorted <==> f in directory {
      assert f in multiset(sorted) <==> f in multiset(directory);
    }
  }

  /** No version is executed after it was recorded. */
  ghost predicate NeverRerun(history: seq<Event>) {
    forall i, j | 0 <= i < j < |history| && history[i].Recorded? && history[j].Executed? ::
      history[i].version != history[j].version
  }

  /** The versions with a record event are the versions in the table. */
  ghost predicate TableMatches(history: seq<Event>, recorded: set<int>) {
    forall v :: v in recorded <==> Recorded(v) in history
  }

  /** The run ends on a recorded file that the attempt's own read does not show. */
  ghost predicate StopsBlind(kind: Transfer.Kind, pending: seq<File>, recorded: set<int>, fates: seq<Fate>) {
    var out := ApplyList(kind, pending, recorded, fates);
    |out.applied| < |pending| && Blind(kind, out.recorded, pending[|out.applied|], FateAt(fates, |out.applied|))
  }

  lemma StopsBlindLater(kind: Transfer.Kind, pending: seq<File>, recorded: set<int>, fates: seq<Fate>)
    requires pending != [] && Passes(kind, recorded, pending[0], FateAt(fates, 0))
    ensures StopsBlind(kind, pending, recorded, fates) <==>
            StopsBlind(kind, pending[1..], recorded + {pending[0].version}, Later(fates))
  {
    var rest := ApplyList(kind, pending[1..], recorded + {pending[0].version}, Later(fates));
    assert FateAt(Later(fates), |rest.applied|) == FateAt(fates, |rest.applied| + 1);
  }

  /** A run executes a recorded version, against the history so far, exactly when it stops blind. */
  lemma {:induction false} ListRerunsIff(kind: Transfer.Kind, pending: seq<File>, recorded: set<int>,
                                         fates: seq<Fate>, history: seq<Event>)
    requires TableMatches(history, recorded)
    ensures var out := ApplyList(kind, pending, recorded, fates);
            && TableMatches(history + out.events, out.recorded)
            && (NeverRerun(history + out.events) <==>
                  NeverRerun(history) && !StopsBlind(kind, pending, recorded, fates))
    decreases |pending|
  {
    var out := ApplyList(kind, pending, recorded, fates);
    if pending == [] || out.events == [] {
      assert history + out.events == history;
    } else {
      var v := pending[0].version;
      ExecuteNext(history, recorded, v);
      if Passes(kind, recorded, pending[0], FateAt(fates, 0)) {
        RecordNext(history + [Executed(v)], recorded, v);
        var history' := history + [Executed(v)] + [Recorded(v)];
        ListRerunsIff(kind, pending[1..], recorded + {v}, Later(fates), history');
        StopsBlindLater(kind, pending, recorded, fates);
        Regroup(history, Executed(v), Recorded(v), ApplyList(kind, pending[1..], recorded + {v}, Later(fates)).events);
      }
    }
  }

  lemma Regroup(h: seq<Event>, a: Event, b: Event, rest: seq<Event>)
    ensures h + ([a, b] + rest) == (h + [a] + [b]) + rest
  {
  }

  /** Executing a version keeps a clean history clean exactly when the version is not recorded. */
  lemma ExecuteNext(history: seq<Event>, recorded: set<int>, v: int)
    requires TableMatches(history, recorded)
    ensures TableMatches(history + [Executed(v)], recorded)
    ensures NeverRerun(history + [Executed(v)]) <==> NeverRerun(history) && v !in recorded
  {
    var h := history + [Executed(v)];
    forall u ensures u in recorded <==> Recorded(u) in h { }
    NeverRerunPrefix(history, Executed(v));
    if v in recorded {
      var i :| 0 <= i < |history| && history[i] == Recorded(v);
      assert h[i] == Recorded(v) && h[|history|] == Executed(v);
    } else if NeverRerun(history) {
      assert Recorded(v) !in history;
      forall i, j | 0 <= i < j < |h| && h[i].Recorded? && h[j].Executed? ensures h[i].version != h[j].version {
        assert h[i] == history[i];
        assert h[i] in history;
      }
    }
  }

  lemma RecordNext(history: seq<Event>, recorded: set<int>, v: int)
    requires TableMatches(history, recorded)
    ensures TableMatches(history + [Recorded(v)], recorded + {v})
    ensures NeverRerun(history + [Recorded(v)]) <==> NeverRerun(history)
  {
    forall u ensures u in recorded + {v} <==> Recorded(u) in history + [Recorded(v)] { }
    NeverRerunPrefix(history, Recorded(v));
  }

  lemma NeverRerunPrefix(history: seq<Event>, last: Event)
    ensures NeverRerun(history + [last]) ==> NeverRerun(history)
  {
    assert forall i | 0 <= i < |history| :: (history + [last])[i] == history[i];
  }

  /** The call executes a version that is recorded. */
  ghost predicate CallReruns(kind: Transfer.Kind, call: Call, recorded: set<int>) {
    && call.listing.Some? && !call.read.Fails?
    && StopsBlind(kind, PendingOf(kind, call, recorded), recorded, call.fates)
  }

  lemma CallRerunsIff(kind: Transfer.Kind, call: Call, recorded: set<int>, history: seq<Event>)
    requires TableMatches(history, recorded)
    ensures var out := RunCall(kind, call, recorded);
            && TableMatches(history + out.events, out.recorded)
            && (NeverRerun(history + out.events) <==> NeverRerun(history) && !CallReruns(kind, call, recorded))
  {
    if call.listing.None? || call.read.Fails? {
      assert history + [] == history;
    } else {
      ListRerunsIff(kind, PendingOf(kind, call, recorded), recorded, call.fates, history);
    }
  }

  /** The `k`-th call executes a version that the calls before it recorded. */
  ghost predicate RerunsAt(kind: Transfer.Kind, calls: seq<Call>, k: nat) {
    k < |calls| && CallReruns(kind, calls[k], RecordedAfter(kind, calls[..k]))
  }

  ghost predicate NoCallReruns(kind: Transfer.Kind, calls: seq<Call>) {
    forall k: nat :: !RerunsAt(kind, calls, k)
  }

  lemma NoCallRerunsLast(kind: Transfer.Kind, calls: seq<Call>)
    requires calls != []
    ensures var n := |calls| - 1;
            NoCallReruns(kind, calls) <==> NoCallReruns(kind, calls[..n]) && !RerunsAt(kind, calls, n)
  {
    var n := |calls| - 1;
    var before := calls[..n];
    forall k: nat | k < n ensures RerunsAt(kind, calls, k) <==> RerunsAt(kind, before, k) {
      assert before[..k] == calls[..k];
    }
  }

  /**
   * Over any number of runs with any faults, no recorded version is ever executed again exactly when no
   * run stops at a recorded file that its read does not show.
   */
  lemma {:induction false} RecordedNeverRerunIff(kind: Transfer.Kind, calls: seq<Call>)
    ensures TableMatches(HistoryOf(kind, calls), RecordedAfter(kind, calls))
    ensures NeverRerun(HistoryOf(kind, calls)) <==> NoCallReruns(kind, calls)
  {
    if calls != [] {
      var n := |calls| - 1;
      var history, recorded := HistoryOf(kind, calls[..n]), RecordedAfter(kind, calls[..n]);
      RecordedNeverRerunIff(kind, calls[..n]);
      CallRerunsIff(kind, calls[n], recorded, history);
      NoCallRerunsLast(kind, calls);
    }
  }

  // ---- Which reads are safe --------------------------------------------------------------

  /** No read of the call is cut short. */
  ghost predicate ReadsWhole(call: Call) {
    !call.read.Cut? && forall i | 0 <= i < |call.fates| :: !call.fates[i].read.Cut?
  }

  ghost predicate AllReadWhole(calls: seq<Call>) {
    forall k | 0 <= k < |calls| :: ReadsWhole(calls[k])
  }

  /** With reads that are complete or fail, recorded versions are safe on MySQL and only there. */
  lemma WholeReadsAreSafeIff(kind: Transfer.Kind)
    ensures (forall calls | AllReadWhole(calls) :: NeverRerun(HistoryOf(kind, calls))) <==> kind == Transfer.MySQL
  {
    if kind == Transfer.MySQL {
      forall calls | AllReadWhole(calls) ensures NeverRerun(HistoryOf(kind, calls)) {
        RecordedNeverRerunIff(kind, calls);
        forall k: nat | k < |calls| ensures !RerunsAt(kind, calls, k) {
          WholeReadsAreNotBlind(calls[k], RecordedAfter(kind, calls[..k]));
        }
      }
    } else {
      PostgresRerun("f", "sql");
      var call := Call(Some([File(1, "f", "sql")]), Complete, []);
      assert AllReadWhole([call, call]);
    }
  }

  lemma WholeReadsAreNotBlind(call: Call, recorded: set<int>)
    requires ReadsWhole(call)
    ensures !CallReruns(Transfer.MySQL, call, recorded)
  {
    if CallReruns(Transfer.MySQL, call, recorded) {
      var pending := PendingOf(Transfer.MySQL, call, recorded);
      var out := ApplyList(Transfer.MySQL, pending, recorded, call.fates);
      AppliedIs(Transfer.MySQL, out.recorded, FateAt(call.fates, |out.applied|).read);
    }
  }

  /** The failing run: on Postgres the second run executes the first migration again, without any fault. */
  lemma PostgresRerun(name: string, sql: string)
    ensures var call := Call(Some([File(1, name, sql)]), Complete, []);
            && HistoryOf(Transfer.Postgres, [call, call]) == [Executed(1), Recorded(1), Executed(1)]
            && RunCall(Transfer.Postgres, call, {1}).error == Some(InsertFailed(1))
            && !NeverRerun(HistoryOf(Transfer.Postgres, [call, call]))
  {
    var f := File(1, name, sql);
    var call := Call(Some([f]), Complete, []);
    AppliedIs(Transfer.Postgres, {}, Complete);
    AppliedIs(Transfer.Postgres, {1}, Complete);
    PostgresApplies(f, {});
    PostgresApplies(f, {1});
    assert [call, call][..1] == [call] && [call][..0] == [];
    assert RecordedAfter(Transfer.Postgres, [call]) == {1};
    assert HistoryOf(Transfer.Postgres, [call]) == [Executed(1), Recorded(1)];
    var h := HistoryOf(Transfer.Postgres, [call, call]);
    assert h == [Executed(1), Recorded(1)] + [Executed(1)];
    assert h[1] == Recorded(1) && h[2] == Executed(1);
  }

  lemma PostgresApplies(f: File, recorded: set<int>)
    requires f.version == 1
    ensures var out := RunCall(Transfer.Postgres, Call(Some([f]), Complete, []), recorded);
            if 1 in recorded then out == Outcome(recorded, [Executed(1)], [], Some(InsertFailed(1)))
            else out == Outcome(recorded + {1}, [Executed(1), Recorded(1)], [f], None)
  {
    AppliedIs(Transfer.Postgres, recorded, Complete);
    var applied := Applied(Transfer.Postgres, recorded, Complete).value;
    assert [f][1..] == [];
    assert SortByVersion([f]) == [f];
    assert Unrecorded([f], applied) == [f];
    var one := ApplyOne(Transfer.Postgres, f, recorded, Fate(Complete, Fine));
    assert one.error.None? ==>
           ApplyList(Transfer.Postgres, [], one.recorded, []) == Outcome(one.recorded, [], [], None);
    assert one.events + [] == one.events && one.applied + [] == one.applied;
  }

  /** The call's directory and seen are these; attempts beyond the list of seen see the whole table. */
  ghost predicate HasReads(call: Call, directory: seq<File>, first: Read, seen: seq<Read>) {
    && call.listing == Some(directory) && call.read == first
    && forall i: nat :: FateAt(call.fates, i).read == ReadAt(seen, i)
  }

  function ReadAt(seen: seq<Read>, i: nat): Read {
    if i < |seen| then seen[i] else Complete
  }

  /** The attempts that meet no fault but what their seen bring. */
  function ReadFates(seen: seq<Read>): (fates: seq<Fate>)
    ensures |fates| == |seen| && forall i | 0 <= i < |seen| :: fates[i] == Fate(seen[i], Fine)
  {
    seq(|seen|, i requires 0 <= i < |seen| => Fate(seen[i], Fine))
  }

  /** The first file whose attempt does not pass for its read alone is a recorded one, which its read does not show. */
  ghost predicate BlindAt(kind: Transfer.Kind, pending: seq<File>, recorded: set<int>, seen: seq<Read>, i: nat) {
    && i < |pending|
    && (forall j: nat | j < i :: PassesAt(kind, pending, recorded, ReadFates(seen), j))
    && Blind(kind, recorded + Versions(pending[..i]), pending[i], Fate(ReadAt(seen, i), Fine))
  }

  lemma FatesOfReads(seen: seq<Read>, i: nat)
    ensures FateAt(ReadFates(seen), i) == Fate(ReadAt(seen, i), Fine)
  {
  }

  /** A run goes on as long as its attempts pass. */
  lemma PassingGoesOn(kind: Transfer.Kind, pending: seq<File>, recorded: set<int>, fates: seq<Fate>, n: nat)
    requires n <= |pending| && forall j: nat | j < n :: PassesAt(kind, pending, recorded, fates, j)
    ensures |ApplyList(kind, pending, recorded, fates).applied| >= n
  {
    var out := ApplyList(kind, pending, recorded, fates);
    RunRecordsPrefix(kind, pending, recorded, fates);
    var stop: nat := |out.applied|;
    assert stop < n ==> PassesAt(kind, pending, recorded, fates, stop);
  }

  /**
   * Given what each read of a run brings, the run can execute a recorded version exactly when the reads
   * let it pass all files up to a recorded one that the attempt's own read does not show.
   */
  lemma ReadsCanRerunIff(kind: Transfer.Kind, recorded: set<int>, directory: seq<File>, first: Read, seen: seq<Read>)
    requires !first.Fails?
    ensures (exists call :: HasReads(call, directory, first, seen) && CallReruns(kind, call, recorded)) <==>
            exists i: nat :: BlindAt(kind, Pending(directory, Applied(kind, recorded, first).value), recorded, seen, i)
  {
    var pending := Pending(directory, Applied(kind, recorded, first).value);
    if i: nat :| BlindAt(kind, pending, recorded, seen, i) {
      var call := BlindReruns(kind, recorded, directory, first, seen, i);
      assert HasReads(call, directory, first, seen) && CallReruns(kind, call, recorded);
    }
    forall call | HasReads(call, directory, first, seen) && CallReruns(kind, call, recorded)
      ensures exists i: nat :: BlindAt(kind, pending, recorded, seen, i)
    {
      RerunIsBlind(kind, recorded, directory, first, seen, call);
    }
  }

  lemma BlindReruns(kind: Transfer.Kind, recorded: set<int>, directory: seq<File>, first: Read, seen: seq<Read>, i: nat)
    returns (call: Call)
    requires !first.Fails?
    requires BlindAt(kind, Pending(directory, Applied(kind, recorded, first).value), recorded, seen, i)
    ensures HasReads(call, directory, first, seen) && CallReruns(kind, call, recorded)
  {
    var pending := Pending(directory, Applied(kind, recorded, first).value);
    var fates := ReadFates(seen);
    call := Call(Some(directory), first, fates);
    forall k: nat ensures FateAt(fates, k).read == ReadAt(seen, k) { FatesOfReads(seen, k); }
    FatesOfReads(seen, i);
    PassingGoesOn(kind, pending, recorded, fates, i);
    var out := ApplyList(kind, pending, recorded, fates);
    RunRecordsPrefix(kind, pending, recorded, fates);
    assert !PassesAt(kind, pending, recorded, fates, i);
    assert |out.applied| == i && out.applied == pending[..i];
  }

  lemma RerunIsBlind(kind: Transfer.Kind, recorded: set<int>, directory: seq<File>, first: Read, seen: seq<Read>,
                     call: Call)
    requires !first.Fails? && HasReads(call, directory, first, seen) && CallReruns(kind, call, recorded)
    ensures var pending := Pending(directory, Applied(kind, recorded, first).value);
            exists i: nat :: BlindAt(kind, pending, recorded, seen, i)
  {
    var pending := Pending(directory, Applied(kind, recorded, first).value);
    var out := ApplyList(kind, pending, recorded, call.fates);
    var i := |out.applied|;
    RunRecordsPrefix(kind, pending, recorded, call.fates);
    assert out.applied == pending[..i];
    forall j: nat | j < i ensures PassesAt(kind, pending, recorded, ReadFates(seen), j) {
      assert PassesAt(kind, pending, recorded, call.fates, j);
      FatesOfReads(seen, j);
    }
    assert FateAt(call.fates, i).read == ReadAt(seen, i);
    assert BlindAt(kind, pending, recorded, seen, i);
  }

  /** As many reads as the directory has files, all of which break off after the same rows. */
  function CutReads(n: nat, rows: set<int>): (seen: seq<Read>)
    ensures |seen| == n && forall i | 0 <= i < n :: seen[i] == Cut(rows)
  {
    seq(n, _ => Cut(rows))
  }

  /**
   * When the reads of a run break off after the same rows, the run can execute a recorded version
   * exactly when the reads hide a recorded version that is in the directory.
   */
  lemma CutReadsCanRerunIff(kind: Transfer.Kind, recorded: set<int>, directory: seq<File>, rows: set<int>)
    requires DistinctVersions(directory) && rows <= recorded
    ensures (exists call :: HasReads(call, directory, Cut(rows), CutReads(|directory|, rows)) &&
                            CallReruns(kind, call, recorded)) <==>
            exists f | f in directory :: f.version in recorded && f.version !in Applied(kind, recorded, Cut(rows)).value
  {
    var applied, seen := Applied(kind, recorded, Cut(rows)).value, CutReads(|directory|, rows);
    var pending := Pending(directory, applied);
    PendingIsReady(directory, applied);
    ReadsCanRerunIff(kind, recorded, directory, Cut(rows), seen);
    assert DistinctVersions(pending) && forall f :: f in pending <==> f in directory && f.version !in applied;
    CutReadsBlindIff(kind, pending, recorded, rows, seen);
  }

  lemma CutReadsBlindIff(kind: Transfer.Kind, pending: seq<File>, recorded: set<int>, rows: set<int>, seen: seq<Read>)
    requires |pending| <= |seen| && rows <= recorded && DistinctVersions(pending)
    requires forall k | 0 <= k < |seen| :: seen[k] == Cut(rows)
    requires forall f | f in pending :: f.version !in Applied(kind, recorded, Cut(rows)).value
    ensures (exists i: nat :: BlindAt(kind, pending, recorded, seen, i)) <==>
            exists f | f in pending :: f.version in recorded
  {
    if i: nat :| BlindAt(kind, pending, recorded, seen, i) {
      assert pending[i] in pending;
      assert pending[i].version !in Versions(pending[..i]);
    }
    if f :| f in pending && f.version in recorded {
      var i := FirstRecorded(pending, recorded);
      CutReadsAreBlind(kind, pending, recorded, rows, seen, i);
    }
  }

  /** With new files only before it, the first recorded file is reached and executed. */
  lemma CutReadsAreBlind(kind: Transfer.Kind, pending: seq<File>, recorded: set<int>, rows: set<int>,
                         seen: seq<Read>, i: nat)
    requires i < |pending| <= |seen| && rows <= recorded && DistinctVersions(pending)
    requires forall k | 0 <= k < |seen| :: seen[k] == Cut(rows)
    requires forall f | f in pending :: f.version !in Applied(kind, recorded, Cut(rows)).value
    requires pending[i].version in recorded && NoneRecorded(pending[..i], recorded)
    ensures BlindAt(kind, pending, recorded, seen, i)
  {
    CutShowsTheSame(kind, pending, recorded, rows, i);
    forall j: nat | j < i ensures PassesAt(kind, pending, recorded, ReadFates(seen), j) {
      assert pending[..i][j] == pending[j] && pending[..j] == pending[..i][..j];
      CutShowsTheSame(kind, pending, recorded, rows, j);
      FatesOfReads(seen, j);
    }
  }

  /** The files before the first recorded one are new, so a read that breaks off shows the same as before. */
  lemma CutShowsTheSame(kind: Transfer.Kind, pending: seq<File>, recorded: set<int>, rows: set<int>, i: nat)
    requires i < |pending| && rows <= recorded && NoneRecorded(pending[..i], recorded)
    requires DistinctVersions(pending)
    requires forall f | f in pending :: f.version !in Applied(kind, recorded, Cut(rows)).value
    ensures pending[i].version !in Applied(kind, recorded + Versions(pending[..i]), Cut(rows)).value
    ensures pending[i].version !in Versions(pending[..i])
  {
    assert RowsSeen(recorded + Versions(pending[..i]), Cut(rows)) == RowsSeen(recorded, Cut(rows));
    assert pending[i] in pending;
  }

  lemma FirstRecorded(pending: seq<File>, recorded: set<int>) returns (i: nat)
    requires exists f | f in pending :: f.version in recorded
    ensures i < |pending| && pending[i].version in recorded && NoneRecorded(pending[..i], recorded)
  {
    var f :| f in pending && f.version in recorded;
    i := 0;
    while pending[i].version !in recorded
      invariant i < |pending| && NoneRecorded(pending[..i], recorded)
      invariant exists k :: i <= k < |pending| && pending[k] == f
      decreases |pending| - i
    {
      i := i + 1;
    }
  }

  // ---- What every run does -----------------------------------------------------------------

  /**
   * Each run executes in strictly ascending order and records a prefix of its pending list, whatever its
   * reads bring.
   */
  lemma EveryRunRecordsPrefix(kind: Transfer.Kind, call: Call, recorded: set<int>)
    requires call.listing.Some? ==> DistinctVersions(call.listing.value)
    ensures var out := RunCall(kind, call, recorded);
            && StrictlyAscending(Executions(out.events))
            && out.recorded == recorded + Versions(out.applied)
            && (call.listing.None? || call.read.Fails? ==> out.error.Some? && out.events == [])
            && (call.listing.Some? && !call.read.Fails? ==>
                  var pending := PendingOf(kind, call, recorded);
                  && Attempted(out) <= |pending| && Executions(out.events) == VersionList(pending[..Attempted(out)])
                  && out.applied <= pending && (out.error.None? <==> out.applied == pending))
  {
    if call.listing.Some? && !call.read.Fails? {
      var pending := PendingOf(kind, call, recorded);
      PendingIsReady(call.listing.value, Applied(kind, recorded, call.read).value);
      RunRecordsPrefix(kind, pending, recorded, call.fates);
      RunExecutesAttempted(kind, pending, recorded, call.fates);
      VersionListAscends(pending, Attempted(RunCall(kind, call, recorded)));
    }
  }

  /** Something the read shows passes for version 0 that is not recorded. */
  ghost predicate ZeroIsFeigned(kind: Transfer.Kind, recorded: set<int>, read: Read) {
    kind == Transfer.Postgres && 0 !in recorded && exists u :: u in RowsSeen(recorded, read)
  }

  /** A run that succeeds leaves its whole directory recorded, unless version 0 is in it and only seemed recorded. */
  lemma SuccessRecordsDirectoryIff(kind: Transfer.Kind, call: Call, recorded: set<int>)
    requires RunCall(kind, call, recorded).error.None?
    ensures Versions(call.listing.value) <= RunCall(kind, call, recorded).recorded <==>
            !(ZeroIsFeigned(kind, recorded, call.read) && 0 in Versions(call.listing.value))
  {
    var directory, applied := call.listing.value, Applied(kind, recorded, call.read).value;
    var pending, out := PendingOf(kind, call, recorded), RunCall(kind, call, recorded);
    PendingVersions(directory, applied);
    RunRecordsPrefix(kind, pending, recorded, call.fates);
    AppliedIs(kind, recorded, call.read);
    assert out.recorded == recorded + Versions(pending);
    if ZeroIsFeigned(kind, recorded, call.read) {
      assert 0 in applied && 0 !in Versions(pending);
    } else {
      assert forall v | v in applied :: v in recorded || v !in Versions(directory) || v in Versions(pending);
    }
  }

  lemma PendingVersions(directory: seq<File>, applied: set<int>)
    ensures Versions(Pending(directory, applied)) == Versions(directory) - applied
  {
    var pending := Pending(directory, applied);
    PendingIsReady(directory, applied);
    forall v | v in Versions(pending) ensures v in Versions(directory) - applied {
      var k :| 0 <= k < |pending| && pending[k].version == v;
      assert pending[k] in pending;
      var i :| 0 <= i < |directory| && directory[i] == pending[k];
      assert directory[i].version == v;
    }
    forall v | v in Versions(directory) - applied ensures v in Versions(pending) {
      var i :| 0 <= i < |directory| && directory[i].version == v;
      assert directory[i] in pending;
      var k :| 0 <= k < |pending| && pending[k] == directory[i];
      assert pending[k].version == v;
    }
  }

  /**
   * Once a directory is recorded, the next run finds nothing to do exactly when its read works and shows
   * every version of the directory.
   */
  lemma NextRunDoesNothingIff(kind: Transfer.Kind, directory: seq<File>, recorded: set<int>, read: Read,
                              fates: seq<Fate>)
    requires Versions(directory) <= recorded
    ensures RunCall(kind, Call(Some(directory), read, fates), recorded) == Outcome(recorded, [], [], None) <==>
            !read.Fails? && Versions(directory) <= Applied(kind, recorded, read).value
  {
    if !read.Fails? {
      var applied := Applied(kind, recorded, read).value;
      var pending := Pending(directory, applied);
      PendingVersions(directory, applied);
      if pending != [] {
        assert pending[0].version in Versions(pending);
        StopsAtRecorded(kind, pending, recorded, fates, 0);
      } else {
        assert Versions(pending) == {};
        assert forall v | v in Versions(directory) :: v in applied || v in Versions(directory) - applied;
      }
    }
  }

  // ---- New migration files --------------------------------------------------------------------

  /** One past the largest version, from 1 on. */
  function NextVersion(files: seq<File>): (v: int)
    ensures v >= 1 && forall i | 0 <= i < |files| :: files[i].version < v
    ensures v == 1 || exists i | 0 <= i < |files| :: files[i].version == v - 1
  {
    if files == [] then 1
    else
      var before := NextVersion(files[..|files| - 1]);
      if files[|files| - 1].version >= before then files[|files| - 1].version + 1 else before
  }

  /** `%03d_%s.sql`. */
  function FileName(version: int, name: string): string {
    Padded(version, 3) + "_" + name + ".sql"
  }

  function UpToUnderscore(s: string): string {
    if s == "" || s[0] == '_' then "" else [s[0]] + UpToUnderscore(s[1..])
  }

  function LeadingDigits(s: string): (d: string)
    ensures AllDigits(d)
  {
    if s == "" || !IsDigit(s[0]) then "" else [s[0]] + LeadingDigits(s[1..])
  }

  function TrimSql(s: string): string {
    if |s| >= 4 && s[|s| - 4..] == ".sql" then s[..|s| - 4] else s
  }

  /** `Sscanf(..., "%d")` on the part before the first underscore, for a name that starts with a digit. */
  function ParseVersion(filename: string): int {
    Value(LeadingDigits(UpToUnderscore(TrimSql(filename))))
  }

  lemma {:induction false} UpToUnderscoreOfDigits(digits: string, rest: string)
    requires AllDigits(digits)
    ensures UpToUnderscore(digits + "_" + rest) == digits
    ensures LeadingDigits(digits) == digits
  {
    var s := digits + "_" + rest;
    if digits != "" {
      assert IsDigit(digits[0]) && s[0] == digits[0] && s[1..] == digits[1..] + "_" + rest;
      UpToUnderscoreOfDigits(digits[1..], rest);
    }
  }

  /** Every name that starts with digits and an underscore has their value as its version. */
  lemma NumberedFile(digits: string, rest: string)
    requires AllDigits(digits)
    ensures ParseVersion(digits + "_" + rest + ".sql") == Value(digits)
  {
    var s := digits + "_" + rest + ".sql";
    assert s[|s| - 4..] == ".sql" && s[..|s| - 4] == digits + "_" + rest;
    UpToUnderscoreOfDigits(digits, rest);
  }

  /** A created file is read back with its own version, which is one above the newest existing one. */
  lemma CreatedFileIsNewest(files: seq<File>, name: string)
    ensures var v := NextVersion(files);
            ParseVersion(FileName(v, name)) == v && forall i | 0 <= i < |files| :: files[i].version != v
  {
    var v := NextVersion(files);
    ValueOfPadded(v, 3);
    NumberedFile(Padded(v, 3), name);
  }

  /** The seventh migration is number 007. */
  lemma SeventhFile(name: string)
    ensures FileName(7, name) == "007_" + name + ".sql"
  {
    assert Padded(7, 3) == ZeroFill("7", 3) == ZeroFill("0" + "7", 3) == ZeroFill("0" + ("0" + "7"), 3);
  }
}
