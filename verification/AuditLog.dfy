/** The in-memory audit log: inverted indexes that must agree with a scan of the log. */
module AuditLog {

  /** Times are Unix readings; 0 stands for Go's zero time. */
  datatype Entry = Entry(id: nat, action: string, userID: string, resource: string, status: string,
                         createdAt: int, detail: string)

  datatype Filter = Filter(action: string, userID: string, resource: string, status: string,
                           startTime: int, endTime: int, offset: int, limit: int)

  datatype Field = Action | UserID | Resource | Status

  function ValueOf(e: Entry, field: Field): string {
    match field
    case Action => e.action
    case UserID => e.userID
    case Resource => e.resource
    case Status => e.status
  }

  function Wanted(f: Filter, field: Field): string {
    match field
    case Action => f.action
    case UserID => f.userID
    case Resource => f.resource
    case Status => f.status
  }

  predicate MatchTime(e: Entry, f: Filter) {
    !(f.startTime != 0 && e.createdAt < f.startTime) && !(f.endTime != 0 && e.createdAt > f.endTime)
  }

  // ---- The reference: scan, then page ---------------------------------------------------

  /** An empty field of the filter matches everything. */
  predicate Accepts(f: Filter, e: Entry, field: Field) {
    Wanted(f, field) == "" || ValueOf(e, field) == Wanted(f, field)
  }

  predicate Matches(e: Entry, f: Filter) {
    && Accepts(f, e, Action) && Accepts(f, e, UserID) && Accepts(f, e, Resource) && Accepts(f, e, Status)
    && MatchTime(e, f)
  }

  /** The entries of the log that match, in log order. */
  function Scan(log: seq<Entry>, f: Filter): seq<Entry> {
    if log == [] then []
    else
      var last := log[|log| - 1];
      Scan(log[..|log| - 1], f) + (if Matches(last, f) then [last] else [])
  }

  /** An offset at or past the end is ignored; a limit that is not positive means no limit. */
  function Page(result: seq<Entry>, offset: int, limit: int): seq<Entry> {
    var rest := if 0 < offset < |result| then result[offset..] else result;
    if 0 < limit < |rest| then rest[..limit] else rest
  }

  /** What a client collects by asking for page after page, below the match count. */
  function Pages(result: seq<Entry>, offset: nat, limit: int): seq<Entry>
    requires limit > 0
    decreases |result| - offset
  {
    if offset >= |result| then [] else Page(result, offset, limit) + Pages(result, offset + limit, limit)
  }

  /** Consecutive pages concatenate to everything from the first offset on; from 0, to the whole result. */
  lemma {:induction false} PagesConcatenate(result: seq<Entry>, offset: nat, limit: int)
    requires limit > 0 && offset <= |result|
    ensures Pages(result, offset, limit) == result[offset..]
    decreases |result| - offset
  {
    if offset < |result| {
      if offset + limit <= |result| {
        PagesConcatenate(result, offset + limit, limit);
        assert result[offset..] == result[offset..][..limit] + result[offset + limit..];
      } else {
        assert Pages(result, offset + limit, limit) == [];
      }
    }
  }

  function Drop(result: seq<Entry>, offset: int): seq<Entry> {
    if offset <= 0 then result else if offset >= |result| then [] else result[offset..]
  }

  function Take(result: seq<Entry>, limit: int): seq<Entry> {
    if 0 < limit < |result| then result[..limit] else result
  }

  /**
   * For every limit, skipping works exactly below the match count: past it the code starts over from the
   * first entry.
   */
  lemma OffsetSkipsIff(result: seq<Entry>, offset: int, limit: int)
    ensures Page(result, offset, limit) == Take(Drop(result, offset), limit) <==> offset < |result| || result == []
  {
    if offset >= |result| && result != [] {
      assert Take(Drop(result, offset), limit) == [];
      assert |Page(result, offset, limit)| > 0;
    }
  }

  /** The entry was asked for: no wanted field differs, and its time lies between the times given, both included. */
  ghost predicate AskedFor(f: Filter, e: Entry) {
    && (f.action != "" ==> e.action == f.action) && (f.userID != "" ==> e.userID == f.userID)
    && (f.resource != "" ==> e.resource == f.resource) && (f.status != "" ==> e.status == f.status)
    && (f.startTime != 0 ==> f.startTime <= e.createdAt) && (f.endTime != 0 ==> e.createdAt <= f.endTime)
  }

  /** Ids that rise along the log, as the store assigns them. */
  ghost predicate RisingIds(log: seq<Entry>) {
    forall i, j | 0 <= i < j < |log| :: log[i].id < log[j].id
  }

  lemma MatchesIff(e: Entry, f: Filter)
    ensures Matches(e, f) <==> AskedFor(f, e)
  {
    assert Accepts(f, e, Action) <==> f.action == "" || e.action == f.action;
    assert Accepts(f, e, UserID) <==> f.userID == "" || e.userID == f.userID;
    assert Accepts(f, e, Resource) <==> f.resource == "" || e.resource == f.resource;
    assert Accepts(f, e, Status) <==> f.status == "" || e.status == f.status;
  }

  /** The scan holds exactly the entries of the log that were asked for, in the order of the log. */
  lemma {:induction false} ScanSelects(log: seq<Entry>, f: Filter)
    ensures forall e :: e in Scan(log, f) <==> e in log && AskedFor(f, e)
    ensures RisingIds(log) ==> RisingIds(Scan(log, f))
  {
    if log != [] {
      var before, last := log[..|log| - 1], log[|log| - 1];
      ScanSelects(before, f);
      MatchesIff(last, f);
      assert log == before + [last];
      if RisingIds(log) {
        LastRises(before, last, Scan(before, f));
      }
    }
  }

  lemma LastRises(before: seq<Entry>, last: Entry, some: seq<Entry>)
    requires RisingIds(before + [last]) && forall e | e in some :: e in before
    ensures RisingIds(before) && (RisingIds(some) ==> RisingIds(some + [last]))
  {
    var log := before + [last];
    assert forall k | 0 <= k < |before| :: log[k] == before[k];
    forall k | 0 <= k < |some| ensures some[k].id < last.id {
      assert some[k] in before;
      var j :| 0 <= j < |before| && before[j] == some[k];
      assert log[j] == some[k] && log[|before|] == last;
    }
  }

  /** A page holds nothing else, and everything when neither an offset nor a limit cuts it. */
  lemma PageSelects(log: seq<Entry>, f: Filter)
    ensures var page := Page(Scan(log, f), f.offset, f.limit);
            && (forall e | e in page :: e in log && AskedFor(f, e))
            && (f.offset <= 0 && f.limit <= 0 ==> forall e | e in log && AskedFor(f, e) :: e in page)
  {
    ScanSelects(log, f);
  }

  // ---- Indexes -------------------------------------------------------------------------------

  predicate Listed(idx: map<string, set<nat>>, key: string, id: nat) {
    key in idx && id in idx[key]
  }

  /** `idx[key]` holds exactly the ids of the entries whose field is `key`; the empty key is not indexed. */
  ghost predicate Indexes(idx: map<string, set<nat>>, log: seq<Entry>, field: Field) {
    forall key, id: nat :: Listed(idx, key, id) <==>
      key != "" && 1 <= id <= |log| && ValueOf(log[id - 1], field) == key
  }

  function IndexAdd(idx: map<string, set<nat>>, key: string, id: nat): map<string, set<nat>> {
    if key == "" then idx
    else if key in idx then idx[key := idx[key] + {id}]
    else idx[key := {id}]
  }

  lemma IndexAfterAppend(idx: map<string, set<nat>>, log: seq<Entry>, field: Field, e: Entry)
    requires Indexes(idx, log, field)
    ensures Indexes(IndexAdd(idx, ValueOf(e, field), |log| + 1), log + [e], field)
  {
    var idx', log' := IndexAdd(idx, ValueOf(e, field), |log| + 1), log + [e];
    forall key, id: nat
      ensures Listed(idx', key, id) <==> key != "" && 1 <= id <= |log'| && ValueOf(log'[id - 1], field) == key
    {
      assert Listed(idx, key, id) <==> key != "" && 1 <= id <= |log| && ValueOf(log[id - 1], field) == key;
    }
  }

  /** An id is selected when every collected set holds it. */
  ghost predicate Selected(sets: seq<set<nat>>, id: nat) {
    forall i | 0 <= i < |sets| :: id in sets[i]
  }

  /** The ids in all of the given sets; nothing for no sets at all. */
  method IntersectSets(sets: seq<set<nat>>) returns (result: set<nat>)
    ensures forall id: nat :: id in result <==> |sets| > 0 && Selected(sets, id)
  {
    result := {};
    if |sets| == 0 {
      return;
    }
    var todo := sets[0];
    while todo != {}
      invariant todo <= sets[0]
      invariant forall id: nat :: id in result <==> id in sets[0] && id !in todo && Selected(sets, id)
      decreases |todo|
    {
      var id :| id in todo;
      var inAll := true;
      var i := 1;
      while i < |sets| && inAll
        invariant 1 <= i <= |sets|
        invariant inAll ==> forall j | 1 <= j < i :: id in sets[j]
        invariant !inAll ==> exists j | 1 <= j < |sets| :: id !in sets[j]
      {
        if id !in sets[i] {
          inAll := false;
        }
        i := i + 1;
      }
      if inAll {
        result := result + {id};
      }
      todo := todo - {id};
    }
    assert forall id: nat :: Selected(sets, id) ==> id in sets[0];
  }

  /** `indexAdd` on one of the four maps. */
  method IndexEntry(idx: map<string, set<nat>>, key: string, id: nat, ghost log: seq<Entry>, ghost field: Field,
                    ghost e: Entry)
    returns (idx': map<string, set<nat>>)
    requires Indexes(idx, log, field) && key == ValueOf(e, field) && id == |log| + 1
    ensures Indexes(idx', log + [e], field)
  {
    IndexAfterAppend(idx, log, field, e);
    return IndexAdd(idx, key, id);
  }

  class MemoryStore {
    var log: seq<Entry>
    var nextID: nat
    var idxAction: map<string, set<nat>>
    var idxUserID: map<string, set<nat>>
    var idxResource: map<string, set<nat>>
    var idxStatus: map<string, set<nat>>

    ghost predicate Valid()
      reads this
    {
      && nextID == |log|
      && (forall i | 0 <= i < |log| :: log[i].id == i + 1)
      && Indexes(idxAction, log, Action) && Indexes(idxUserID, log, UserID)
      && Indexes(idxResource, log, Resource) && Indexes(idxStatus, log, Status)
    }

    constructor ()
      ensures Valid() && log == []
    {
      log, nextID := [], 0;
      idxAction, idxUserID, idxResource, idxStatus := map[], map[], map[], map[];
    }

    /** The store assigns the id; everything else is kept, at the end of the log. */
    method Append(entry: Entry)
      requires Valid()
      modifies this
      ensures Valid() && log == old(log) + [entry.(id := |old(log)| + 1)]
    {
      nextID := nextID + 1;
      var e := entry.(id := nextID);
      ghost var before := log;
      log := log + [e];
      idxAction := IndexEntry(idxAction, e.action, e.id, before, Action, e);
      idxUserID := IndexEntry(idxUserID, e.userID, e.id, before, UserID, e);
      idxResource := IndexEntry(idxResource, e.resource, e.id, before, Resource, e);
      idxStatus := IndexEntry(idxStatus, e.status, e.id, before, Status, e);
    }

    /** Adds the index set of one filter field; not ok when the field is wanted and nothing has its value. */
    method Narrow(idx: map<string, set<nat>>, ghost field: Field, value: string, ghost filter: Filter,
                  sets: seq<set<nat>>)
      returns (ok: bool, narrowed: seq<set<nat>>)
      requires Valid() && Indexes(idx, log, field) && value == Wanted(filter, field)
      ensures !ok ==> Scan(log, filter) == []
      ensures ok ==> forall i | 0 <= i < |log| ::
                       Selected(narrowed, log[i].id) <==> Selected(sets, log[i].id) && Accepts(filter, log[i], field)
    {
      if value == "" {
        return true, sets;
      }
      var s := if value in idx then idx[value] else {};
      if |s| == 0 {
        forall i | 0 <= i < |log| ensures ValueOf(log[i], field) != value {
          assert Listed(idx, value, i + 1) <==> value == ValueOf(log[i], field);
        }
        NothingMatches(log, filter, field);
        return false, sets;
      }
      narrowed := sets + [s];
      forall i | 0 <= i < |log|
        ensures Selected(narrowed, log[i].id) <==> Selected(sets, log[i].id) && Accepts(filter, log[i], field)
      {
        assert Listed(idx, value, i + 1) <==> value == ValueOf(log[i], field);
        assert narrowed[|sets|] == s;
        assert forall j | 0 <= j < |sets| :: narrowed[j] == sets[j];
      }
      return true, narrowed;
    }

    /** The index sets of all wanted fields; not ok when one of them is empty. */
    method Collect(filter: Filter) returns (ok: bool, sets: seq<set<nat>>)
      requires Valid()
      ensures !ok ==> Scan(log, filter) == []
      ensures ok ==> forall i | 0 <= i < |log| ::
                       Matches(log[i], filter) <==> Selected(sets, log[i].id) && MatchTime(log[i], filter)
    {
      var byAction, byUser, byResource;
      ok, byAction := Narrow(idxAction, Action, filter.action, filter, []);
      if !ok { return false, []; }
      ok, byUser := Narrow(idxUserID, UserID, filter.userID, filter, byAction);
      if !ok { return false, []; }
      ok, byResource := Narrow(idxResource, Resource, filter.resource, filter, byUser);
      if !ok { return false, []; }
      ok, sets := Narrow(idxStatus, Status, filter.status, filter, byResource);
      if !ok { return false, []; }
      forall i | 0 <= i < |log|
        ensures Matches(log[i], filter) <==> Selected(sets, log[i].id) && MatchTime(log[i], filter)
      {
        assert Selected(byResource, log[i].id) <==> Selected(byUser, log[i].id) && Accepts(filter, log[i], Resource);
        assert Selected(byUser, log[i].id) <==> Selected(byAction, log[i].id) && Accepts(filter, log[i], UserID);
      }
    }

    /** The pass over the log, in log order, by the candidate ids. */
    method ScanCandidates(filter: Filter, sets: seq<set<nat>>) returns (result: seq<Entry>)
      requires Valid()
      requires forall i | 0 <= i < |log| ::
                 Matches(log[i], filter) <==> Selected(sets, log[i].id) && MatchTime(log[i], filter)
      ensures result == Scan(log, filter)
    {
      var candidates := IntersectSets(sets);
      result := [];
      var i := 0;
      while i < |log|
        invariant 0 <= i <= |log|
        invariant result == Scan(log[..i], filter)
      {
        var e := log[i];
        ScanNext(log, i, filter);
        assert Matches(e, filter) <==> Selected(sets, e.id) && MatchTime(e, filter);
        assert |sets| == 0 ==> Selected(sets, e.id);
        if (|sets| == 0 || e.id in candidates) && MatchTime(e, filter) {
          result := result + [e];
        }
        i := i + 1;
      }
      assert log[..i] == log;
    }

    /** Through the indexes, Query returns exactly the page of the linear scan. */
    method Query(filter: Filter) returns (result: seq<Entry>)
      requires Valid()
      ensures result == Page(Scan(log, filter), filter.offset, filter.limit)
      ensures forall e | e in result :: e in log && AskedFor(filter, e)
      ensures filter.offset <= 0 && filter.limit <= 0 ==> forall e | e in log && AskedFor(filter, e) :: e in result
    {
      PageSelects(log, filter);
      var ok, sets := Collect(filter);
      if !ok {
        return [];
      }
      result := ScanCandidates(filter, sets);
      if filter.offset > 0 && filter.offset < |result| {
        result := result[filter.offset..];
      }
      if filter.limit > 0 && filter.limit < |result| {
        result := result[..filter.limit];
      }
    }
  }

  lemma ScanNext(log: seq<Entry>, i: nat, f: Filter)
    requires i < |log|
    ensures Scan(log[..i + 1], f) == Scan(log[..i], f) + (if Matches(log[i], f) then [log[i]] else [])
  {
    assert log[..i + 1][..i] == log[..i] && log[..i + 1][i] == log[i];
  }

  lemma {:induction false} NothingMatches(log: seq<Entry>, f: Filter, field: Field)
    requires Wanted(f, field) != "" && forall i | 0 <= i < |log| :: ValueOf(log[i], field) != Wanted(f, field)
    ensures Scan(log, f) == []
  {
    if log != [] {
      NothingMatches(log[..|log| - 1], f, field);
      assert !Accepts(f, log[|log| - 1], field);
    }
  }
}
