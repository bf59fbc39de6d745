/** The in-process cache level: a map with logical-clock stamps that behaves as a recency list. */
module L1Cache {
  import opened Prelude

  datatype Entry = Entry(data: Bytes, expiresAt: int, lastHit: int)

  datatype L1 = L1(entries: map<string, Entry>, clock: int)

  // ---- The operations on stamped entries ------------------------------------------

  /** The entry with the smallest stamp. */
  ghost predicate IsOldest(entries: map<string, Entry>, key: string) {
    && key in entries && entries[key].lastHit < MAX_INT64
    && forall k | k in entries && k != key :: entries[key].lastHit < entries[k].lastHit
  }

  /** The oldest key, or "" when there is none: the code's starting value. */
  ghost function Oldest(entries: map<string, Entry>): string {
    if exists k :: IsOldest(entries, k) then var k :| IsOldest(entries, k); k else ""
  }

  /** `evictOneLocked`: an oldest key of "" is taken for "no key found". */
  ghost function EvictOne(entries: map<string, Entry>): map<string, Entry> {
    if Oldest(entries) == "" then entries else entries - {Oldest(entries)}
  }

  function Touch(s: L1, key: string): L1
    requires key in s.entries
  {
    L1(s.entries[key := s.entries[key].(lastHit := s.clock + 1)], s.clock + 1)
  }

  function Hit(s: L1, key: string, now: int): bool {
    key in s.entries && now <= s.entries[key].expiresAt
  }

  function Get(s: L1, key: string, now: int): L1 {
    if Hit(s, key, now) then Touch(s, key) else s.(entries := s.entries - {key})
  }

  /** What remains after making room for a write; a full cache evicts even when the key is already there. */
  ghost function Room(maxSize: nat, entries: map<string, Entry>): map<string, Entry> {
    if |entries| >= maxSize then EvictOne(entries) else entries
  }

  ghost function Set(maxSize: nat, s: L1, key: string, data: Bytes, expiresAt: int): L1 {
    L1(Room(maxSize, s.entries)[key := Entry(data, expiresAt, s.clock + 1)], s.clock + 1)
  }

  function Delete(s: L1, key: string): L1 {
    s.(entries := s.entries - {key})
  }

  function Sweep(s: L1, now: int): L1 {
    s.(entries := map k | k in s.entries && now <= s.entries[k].expiresAt :: s.entries[k])
  }

  /** Stamps are distinct readings of the clock, and the clock has not reached its limit. */
  ghost predicate Stamped(s: L1) {
    && s.clock < MAX_INT64
    && (forall k | k in s.entries :: s.entries[k].lastHit <= s.clock)
    && (forall j, k | j in s.entries && k in s.entries && j != k :: s.entries[j].lastHit != s.entries[k].lastHit)
  }

  lemma FewerEntriesStayStamped(s: L1, entries: map<string, Entry>)
    requires Stamped(s) && forall k | k in entries :: k in s.entries && entries[k] == s.entries[k]
    ensures Stamped(s.(entries := entries))
  {
  }

  lemma TouchStaysStamped(s: L1, key: string, entry: Entry)
    requires Stamped(s) && s.clock + 1 < MAX_INT64 && entry.lastHit == s.clock + 1
    ensures Stamped(L1(s.entries[key := entry], s.clock + 1))
  {
  }

  /** A key found by comparing all stamps is the one and only oldest key. */
  lemma ScanFindsOldest(s: L1, key: string)
    requires Stamped(s) && key in s.entries
    requires forall k | k in s.entries :: s.entries[key].lastHit <= s.entries[k].lastHit
    ensures Oldest(s.entries) == key
  {
    assert IsOldest(s.entries, key);
    assert forall k | IsOldest(s.entries, k) :: k == key;
  }

  lemma NothingIsOldest(entries: map<string, Entry>)
    requires forall k :: k !in entries
    ensures Oldest(entries) == ""
  {
  }

  // ---- The recency list -------------------------------------------------------------

  /** One element of the list; the most recently touched key comes first. */
  datatype Slot = Slot(key: string, data: Bytes, expiresAt: int)

  function Keys(list: seq<Slot>): set<string> {
    if list == [] then {} else {list[0].key} + Keys(list[1..])
  }

  function Without(list: seq<Slot>, key: string): seq<Slot> {
    if list == [] then []
    else if list[0].key == key then Without(list[1..], key)
    else [list[0]] + Without(list[1..], key)
  }

  function Unexpired(list: seq<Slot>, now: int): seq<Slot> {
    if list == [] then []
    else if now <= list[0].expiresAt then [list[0]] + Unexpired(list[1..], now)
    else Unexpired(list[1..], now)
  }

  function Find(list: seq<Slot>, key: string): Option<Slot> {
    if list == [] then None else if list[0].key == key then Some(list[0]) else Find(list[1..], key)
  }

  function ListGet(list: seq<Slot>, key: string, now: int): seq<Slot> {
    var found := Find(list, key);
    if found.Some? && now <= found.value.expiresAt then [found.value] + Without(list, key) else Without(list, key)
  }

  function ListRoom(maxSize: nat, list: seq<Slot>): seq<Slot> {
    if |list| >= maxSize && list != [] then list[..|list| - 1] else list
  }

  function ListSet(maxSize: nat, list: seq<Slot>, key: string, data: Bytes, expiresAt: int): seq<Slot> {
    [Slot(key, data, expiresAt)] + Without(ListRoom(maxSize, list), key)
  }

  // ---- The refinement -----------------------------------------------------------------

  /** The entries of the list's keys carry its data, with stamps that fall along the list. */
  ghost predicate Falling(entries: map<string, Entry>, list: seq<Slot>, below: int) {
    list == [] ||
    (&& list[0].key in entries && entries[list[0].key].lastHit < below
     && list[0] == Slot(list[0].key, entries[list[0].key].data, entries[list[0].key].expiresAt)
     && Falling(entries, list[1..], entries[list[0].key].lastHit))
  }

  /** The list is the map's keys in the order of their stamps, newest first. */
  ghost predicate Refines(s: L1, list: seq<Slot>) {
    s.entries.Keys == Keys(list) && Falling(s.entries, list, s.clock + 1)
  }

  lemma {:induction false} FallingBelow(entries: map<string, Entry>, list: seq<Slot>, below: int, key: string)
    requires Falling(entries, list, below) && key in Keys(list)
    ensures key in entries && entries[key].lastHit < below
  {
    if key != list[0].key {
      FallingBelow(entries, list[1..], entries[list[0].key].lastHit, key);
    }
  }

  /** Entries outside the list, and a higher bound, do not matter. */
  lemma {:induction false} FallingFrame(entries: map<string, Entry>, list: seq<Slot>, below: int,
                                        entries': map<string, Entry>, below': int)
    requires Falling(entries, list, below) && below <= below'
    requires forall k | k in Keys(list) && k in entries :: k in entries' && entries'[k] == entries[k]
    ensures Falling(entries', list, below')
  {
    if list != [] {
      var h := entries[list[0].key].lastHit;
      FallingFrame(entries, list[1..], h, entries', h);
    }
  }

  lemma {:induction false} WithoutKeeps(entries: map<string, Entry>, list: seq<Slot>, below: int, key: string)
    requires Falling(entries, list, below)
    ensures Falling(entries, Without(list, key), below)
    ensures Keys(Without(list, key)) == Keys(list) - {key}
    ensures |Without(list, key)| == |list| - (if key in Keys(list) then 1 else 0)
  {
    if list != [] {
      var head, h := list[0].key, entries[list[0].key].lastHit;
      WithoutKeeps(entries, list[1..], h, key);
      if head in Keys(list[1..]) {
        FallingBelow(entries, list[1..], h, head);
      }
      var rest := Without(list[1..], key);
      if head == key {
        FallingFrame(entries, rest, h, entries, below);
      } else {
        assert ([list[0]] + rest)[1..] == rest;
      }
    }
  }

  lemma {:induction false} UnexpiredKeeps(entries: map<string, Entry>, list: seq<Slot>, below: int, now: int)
    requires Falling(entries, list, below)
    ensures Falling(entries, Unexpired(list, now), below)
    ensures forall k :: k in Keys(Unexpired(list, now)) <==>
            k in Keys(list) && k in entries && now <= entries[k].expiresAt
    ensures |Unexpired(list, now)| <= |list|
  {
    if list != [] {
      var h := entries[list[0].key].lastHit;
      UnexpiredKeeps(entries, list[1..], h, now);
      var rest := Unexpired(list[1..], now);
      if now <= list[0].expiresAt {
        assert ([list[0]] + rest)[1..] == rest;
      } else {
        FallingFrame(entries, rest, h, entries, below);
      }
    }
  }

  lemma {:induction false} FindMatches(entries: map<string, Entry>, list: seq<Slot>, below: int, key: string)
    requires Falling(entries, list, below)
    ensures Find(list, key).Some? <==> key in Keys(list)
    ensures Find(list, key).Some? ==>
              key in entries && Find(list, key).value == Slot(key, entries[key].data, entries[key].expiresAt)
  {
    if list != [] && list[0].key != key {
      FindMatches(entries, list[1..], entries[list[0].key].lastHit, key);
    }
  }

  /** Dropping the last slot removes its key, which carries the smallest stamp of all. */
  lemma {:induction false} LastIsOldest(entries: map<string, Entry>, list: seq<Slot>, below: int)
    requires list != [] && Falling(entries, list, below)
    ensures var last := list[|list| - 1].key;
            && last in entries && entries[last].lastHit < below
            && (forall k | k in Keys(list) && k != last :: k in entries && entries[last].lastHit < entries[k].lastHit)
            && Keys(list[..|list| - 1]) == Keys(list) - {last}
            && last in Keys(list)
            && Falling(entries, list[..|list| - 1], below)
  {
    var h := entries[list[0].key].lastHit;
    if |list| > 1 {
      LastIsOldest(entries, list[1..], h);
      assert list[..|list| - 1][1..] == list[1..][..|list| - 2];
      if list[0].key in Keys(list[1..]) {
        FallingBelow(entries, list[1..], h, list[0].key);
      }
    } else {
      assert list[1..] == [];
    }
  }

  lemma {:induction false} SizeOfKeys(entries: map<string, Entry>, list: seq<Slot>, below: int)
    requires Falling(entries, list, below)
    ensures |Keys(list)| == |list|
  {
    if list != [] {
      var h := entries[list[0].key].lastHit;
      SizeOfKeys(entries, list[1..], h);
      if list[0].key in Keys(list[1..]) {
        FallingBelow(entries, list[1..], h, list[0].key);
      }
    }
  }

  lemma RefinedSize(s: L1, list: seq<Slot>)
    requires Refines(s, list)
    ensures |s.entries| == |list|
  {
    SizeOfKeys(s.entries, list, s.clock + 1);
    assert |s.entries.Keys| == |s.entries|;
  }

  /** A full cache gives up exactly its last slot, unless that slot's key is empty: then it gives up nothing. */
  lemma EvictDropsLastIff(s: L1, list: seq<Slot>)
    requires Refines(s, list) && s.clock < MAX_INT64 && list != []
    ensures Oldest(s.entries) == list[|list| - 1].key
    ensures Refines(s.(entries := EvictOne(s.entries)), list[..|list| - 1]) <==> list[|list| - 1].key != ""
  {
    var last := list[|list| - 1].key;
    LastIsOldest(s.entries, list, s.clock + 1);
    assert IsOldest(s.entries, last);
    assert forall k | IsOldest(s.entries, k) :: k == last;
    if last != "" {
      FallingFrame(s.entries, list[..|list| - 1], s.clock + 1, s.entries - {last}, s.clock + 1);
    }
  }

  /** Touching or writing a key puts it at the head of the list. */
  lemma PushRefines(s: L1, list: seq<Slot>, key: string, data: Bytes, expiresAt: int)
    requires Refines(s, list)
    ensures Refines(L1(s.entries[key := Entry(data, expiresAt, s.clock + 1)], s.clock + 1),
                    [Slot(key, data, expiresAt)] + Without(list, key))
  {
    var entries' := s.entries[key := Entry(data, expiresAt, s.clock + 1)];
    var rest := Without(list, key);
    WithoutKeeps(s.entries, list, s.clock + 1, key);
    FallingFrame(s.entries, rest, s.clock + 1, entries', s.clock + 1);
    assert ([Slot(key, data, expiresAt)] + rest)[1..] == rest;
  }

  lemma RemoveRefines(s: L1, list: seq<Slot>, key: string)
    requires Refines(s, list)
    ensures Refines(Delete(s, key), Without(list, key))
  {
    WithoutKeeps(s.entries, list, s.clock + 1, key);
    FallingFrame(s.entries, Without(list, key), s.clock + 1, s.entries - {key}, s.clock + 1);
  }

  lemma SweepRefines(s: L1, list: seq<Slot>, now: int)
    requires Refines(s, list)
    ensures Refines(Sweep(s, now), Unexpired(list, now))
  {
    UnexpiredKeeps(s.entries, list, s.clock + 1, now);
    FallingFrame(s.entries, Unexpired(list, now), s.clock + 1, Sweep(s, now).entries, s.clock + 1);
  }

  // ---- Runs -----------------------------------------------------------------------------

  datatype Step =
    | GetStep(key: string, now: int)
    | SetStep(key: string, data: Bytes, expiresAt: int)
    | DeleteStep(key: string)
    | ClearStep
    | SweepStep(now: int)

  ghost function Next(maxSize: nat, s: L1, step: Step): L1 {
    match step
    case GetStep(key, now) => Get(s, key, now)
    case SetStep(key, data, expiresAt) => Set(maxSize, s, key, data, expiresAt)
    case DeleteStep(key) => Delete(s, key)
    case ClearStep => s.(entries := map[])
    case SweepStep(now) => Sweep(s, now)
  }

  function ListNext(maxSize: nat, list: seq<Slot>, step: Step): seq<Slot> {
    match step
    case GetStep(key, now) => ListGet(list, key, now)
    case SetStep(key, data, expiresAt) => ListSet(maxSize, list, key, data, expiresAt)
    case DeleteStep(key) => Without(list, key)
    case ClearStep => []
    case SweepStep(now) => Unexpired(list, now)
  }

  ghost function Run(maxSize: nat, steps: seq<Step>): L1 {
    if steps == [] then L1(map[], 0) else Next(maxSize, Run(maxSize, steps[..|steps| - 1]), steps[|steps| - 1])
  }

  function ListRun(maxSize: nat, steps: seq<Step>): seq<Slot> {
    if steps == [] then [] else ListNext(maxSize, ListRun(maxSize, steps[..|steps| - 1]), steps[|steps| - 1])
  }

  ghost predicate NonEmptyKeys(list: seq<Slot>) {
    "" !in Keys(list)
  }

  predicate WritesNonEmptyKeys(steps: seq<Step>) {
    forall i | 0 <= i < |steps| && steps[i].SetStep? :: steps[i].key != ""
  }

  ghost predicate Fits(maxSize: nat, list: seq<Slot>) {
    NonEmptyKeys(list) && |list| <= maxSize
  }

  lemma PushFits(maxSize: nat, entries: map<string, Entry>, list: seq<Slot>, below: int, slot: Slot)
    requires Falling(entries, list, below) && NonEmptyKeys(list) && slot.key != ""
    requires |list| < maxSize || (|list| <= maxSize && slot.key in Keys(list))
    ensures Fits(maxSize, [slot] + Without(list, slot.key))
  {
    WithoutKeeps(entries, list, below, slot.key);
    assert ([slot] + Without(list, slot.key))[1..] == Without(list, slot.key);
  }

  lemma GetRefines(maxSize: nat, s: L1, list: seq<Slot>, key: string, now: int)
    requires Refines(s, list) && Fits(maxSize, list)
    ensures Refines(Get(s, key, now), ListGet(list, key, now)) && Fits(maxSize, ListGet(list, key, now))
    ensures var found := Find(list, key);
      && Hit(s, key, now) == (found.Some? && now <= found.value.expiresAt)
      && (Hit(s, key, now) ==> s.entries[key].data == found.value.data)
  {
    FindMatches(s.entries, list, s.clock + 1, key);
    if Hit(s, key, now) {
      PushRefines(s, list, key, s.entries[key].data, s.entries[key].expiresAt);
      PushFits(maxSize, s.entries, list, s.clock + 1, Find(list, key).value);
    } else {
      WithoutKeeps(s.entries, list, s.clock + 1, key);
      RemoveRefines(s, list, key);
    }
  }

  lemma RoomRefines(maxSize: nat, s: L1, list: seq<Slot>)
    requires maxSize > 0 && Refines(s, list) && Fits(maxSize, list) && s.clock < MAX_INT64
    ensures Refines(s.(entries := Room(maxSize, s.entries)), ListRoom(maxSize, list))
    ensures Fits(maxSize - 1, ListRoom(maxSize, list))
  {
    RefinedSize(s, list);
    if |list| >= maxSize {
      LastIsOldest(s.entries, list, s.clock + 1);
      EvictDropsLastIff(s, list);
    }
  }

  lemma SetRefines(maxSize: nat, s: L1, list: seq<Slot>, key: string, data: Bytes, expiresAt: int)
    requires maxSize > 0 && Refines(s, list) && Fits(maxSize, list) && s.clock < MAX_INT64 && key != ""
    ensures Refines(Set(maxSize, s, key, data, expiresAt), ListSet(maxSize, list, key, data, expiresAt))
    ensures Fits(maxSize, ListSet(maxSize, list, key, data, expiresAt))
  {
    var kept, room := s.(entries := Room(maxSize, s.entries)), ListRoom(maxSize, list);
    RoomRefines(maxSize, s, list);
    PushRefines(kept, room, key, data, expiresAt);
    PushFits(maxSize, kept.entries, room, s.clock + 1, Slot(key, data, expiresAt));
  }

  /** Every operation on the map commutes with the operation on the list. */
  lemma StepRefines(maxSize: nat, s: L1, list: seq<Slot>, step: Step)
    requires maxSize > 0 && Refines(s, list) && s.clock < MAX_INT64
    requires Fits(maxSize, list) && (step.SetStep? ==> step.key != "")
    ensures Refines(Next(maxSize, s, step), ListNext(maxSize, list, step))
    ensures Fits(maxSize, ListNext(maxSize, list, step))
  {
    match step
    case GetStep(key, now) => GetRefines(maxSize, s, list, key, now);
    case SetStep(key, data, expiresAt) => SetRefines(maxSize, s, list, key, data, expiresAt);
    case DeleteStep(key) =>
      WithoutKeeps(s.entries, list, s.clock + 1, key);
      RemoveRefines(s, list, key);
    case ClearStep =>
    case SweepStep(now) =>
      UnexpiredKeeps(s.entries, list, s.clock + 1, now);
      SweepRefines(s, list, now);
  }

  /**
   * For every run that writes non-empty keys and stays below the clock limit, the stamped map is the
   * recency list, and its size never exceeds the maximum.
   */
  lemma {:induction false} LruRefinement(maxSize: nat, steps: seq<Step>)
    requires maxSize > 0 && WritesNonEmptyKeys(steps) && |steps| < MAX_INT64
    ensures Refines(Run(maxSize, steps), ListRun(maxSize, steps))
    ensures Fits(maxSize, ListRun(maxSize, steps))
    ensures |Run(maxSize, steps).entries| == |ListRun(maxSize, steps)| <= maxSize
    ensures 0 <= Run(maxSize, steps).clock <= |steps|
  {
    if steps != [] {
      var before := steps[..|steps| - 1];
      LruRefinement(maxSize, before);
      StepRefines(maxSize, Run(maxSize, before), ListRun(maxSize, before), steps[|steps| - 1]);
    }
    RefinedSize(Run(maxSize, steps), ListRun(maxSize, steps));
  }

  /**
   * A write keeps the cache within its maximum exactly when there is room, the key given up is not empty,
   * or the key written is already there.
   */
  lemma SetKeepsSizeIff(maxSize: nat, s: L1, list: seq<Slot>, key: string, data: Bytes, expiresAt: int)
    requires 0 < maxSize && Refines(s, list) && |list| <= maxSize && s.clock < MAX_INT64
    ensures |Set(maxSize, s, key, data, expiresAt).entries| <= maxSize <==>
            |list| < maxSize || list[|list| - 1].key != "" || key in Keys(list)
  {
    RefinedSize(s, list);
    var kept := Room(maxSize, s.entries);
    assert kept[key := Entry(data, expiresAt, s.clock + 1)].Keys == kept.Keys + {key};
    if |list| == maxSize {
      EvictDropsLastIff(s, list);
      LastIsOldest(s.entries, list, s.clock + 1);
      var last := list[|list| - 1].key;
      assert last != "" ==> kept.Keys == s.entries.Keys - {last};
    }
  }

  /** With an empty key as the oldest entry nothing is evicted and the cache outgrows its maximum. */
  lemma EmptyKeyOutgrows(data: Bytes)
    ensures |Run(1, [SetStep("", data, 0), SetStep("a", data, 0)]).entries| == 2
  {
    var first, second := SetStep("", data, 0), SetStep("a", data, 0);
    assert [first, second][..1] == [first] && [first][..0] == [];
    var s := L1(map["" := Entry(data, 0, 1)], 1);
    assert Run(1, [first]) == s;
    assert IsOldest(s.entries, "");
    assert forall k | IsOldest(s.entries, k) :: k == "";
    assert Run(1, [first, second]).entries == map["" := Entry(data, 0, 1), "a" := Entry(data, 0, 2)];
  }

  // ---- Who gets evicted ---------------------------------------------------------------------

  /** The keys touched along a run (written, or read with a hit), oldest touch first. */
  ghost function Touches(maxSize: nat, steps: seq<Step>): seq<string> {
    if steps == [] then []
    else
      var before, step := steps[..|steps| - 1], steps[|steps| - 1];
      var earlier, s := Touches(maxSize, before), Run(maxSize, before);
      if step.SetStep? || (step.GetStep? && Hit(s, step.key, step.now)) then earlier + [step.key] else earlier
  }

  /** A stamp is the position of the key's last touch. */
  ghost predicate StampsAreTouches(s: L1, touches: seq<string>) {
    && s.clock == |touches|
    && forall k | k in s.entries ::
         && 1 <= s.entries[k].lastHit <= |touches|
         && touches[s.entries[k].lastHit - 1] == k
         && forall i | s.entries[k].lastHit <= i < |touches| :: touches[i] != k
  }

  lemma FewerEntriesKeepStamps(s: L1, entries: map<string, Entry>, touches: seq<string>)
    requires StampsAreTouches(s, touches)
    requires forall k | k in entries :: k in s.entries && entries[k] == s.entries[k]
    ensures StampsAreTouches(s.(entries := entries), touches)
  {
  }

  lemma TouchKeepsStamps(s: L1, entry: Entry, key: string, touches: seq<string>)
    requires StampsAreTouches(s, touches) && entry.lastHit == s.clock + 1
    ensures StampsAreTouches(L1(s.entries[key := entry], s.clock + 1), touches + [key])
  {
  }

  lemma {:induction false} StampsFollowTouches(maxSize: nat, steps: seq<Step>)
    ensures StampsAreTouches(Run(maxSize, steps), Touches(maxSize, steps))
  {
    if steps != [] {
      var before, step := steps[..|steps| - 1], steps[|steps| - 1];
      StampsFollowTouches(maxSize, before);
      var s, touches := Run(maxSize, before), Touches(maxSize, before);
      if step.SetStep? {
        var kept := Room(maxSize, s.entries);
        FewerEntriesKeepStamps(s, kept, touches);
        TouchKeepsStamps(s.(entries := kept), Entry(step.data, step.expiresAt, s.clock + 1), step.key, touches);
      } else if step.GetStep? && Hit(s, step.key, step.now) {
        TouchKeepsStamps(s, s.entries[step.key].(lastHit := s.clock + 1), step.key, touches);
      } else {
        FewerEntriesKeepStamps(s, Run(maxSize, steps).entries, touches);
      }
    }
  }

  function KeysFrom(touches: seq<string>, from: nat): set<string> {
    set i | from <= i < |touches| :: touches[i]
  }

  /** Every other key carries a larger stamp than the victim, so it was touched after it. */
  lemma OthersTouchedLater(s: L1, touches: seq<string>, victim: string)
    requires StampsAreTouches(s, touches) && IsOldest(s.entries, victim)
    ensures |KeysFrom(touches, s.entries[victim].lastHit)| >= |s.entries| - 1
  {
    var others, later := s.entries.Keys - {victim}, KeysFrom(touches, s.entries[victim].lastHit);
    forall k | k in others ensures k in later {
      assert touches[s.entries[k].lastHit - 1] == k;
    }
    SubsetSize(others, later);
  }

  lemma VictimIsOldest(maxSize: nat, s: L1, list: seq<Slot>)
    requires Refines(s, list) && Fits(maxSize, list) && s.clock < MAX_INT64 && list != []
    ensures Oldest(s.entries) != "" && IsOldest(s.entries, Oldest(s.entries))
  {
    LastIsOldest(s.entries, list, s.clock + 1);
    EvictDropsLastIff(s, list);
  }

  /** What an eviction says about the touches so far. */
  ghost predicate LeastRecent(maxSize: nat, s: L1, touches: seq<string>, victim: string) {
    && victim in s.entries
    && 1 <= s.entries[victim].lastHit <= |touches|
    && touches[s.entries[victim].lastHit - 1] == victim
    && victim !in KeysFrom(touches, s.entries[victim].lastHit)
    && |KeysFrom(touches, s.entries[victim].lastHit)| >= maxSize - 1
  }

  lemma VictimIsLeastRecent(maxSize: nat, s: L1, list: seq<Slot>, touches: seq<string>)
    requires Refines(s, list) && Fits(maxSize, list) && s.clock < MAX_INT64 && list != []
    requires StampsAreTouches(s, touches) && |s.entries| >= maxSize
    ensures EvictOne(s.entries) == s.entries - {Oldest(s.entries)}
    ensures LeastRecent(maxSize, s, touches, Oldest(s.entries))
  {
    VictimIsOldest(maxSize, s, list);
    OthersTouchedLater(s, touches, Oldest(s.entries));
  }

  /**
   * Whenever the cache is full, the key evicted was last touched at position `lastHit`, and at least
   * maxSize - 1 other keys have been touched since.
   */
  lemma EvictedAfterOthers(maxSize: nat, steps: seq<Step>)
    requires maxSize > 0 && WritesNonEmptyKeys(steps) && |steps| < MAX_INT64
    requires |Run(maxSize, steps).entries| >= maxSize
    ensures var s := Run(maxSize, steps);
            && EvictOne(s.entries) == s.entries - {Oldest(s.entries)}
            && LeastRecent(maxSize, s, Touches(maxSize, steps), Oldest(s.entries))
  {
    LruRefinement(maxSize, steps);
    StampsFollowTouches(maxSize, steps);
    VictimIsLeastRecent(maxSize, Run(maxSize, steps), ListRun(maxSize, steps), Touches(maxSize, steps));
  }

  // ---- What stays ------------------------------------------------------------------------------

  /** The step takes the key out itself, or finds it expired. */
  predicate EndsKey(s: L1, step: Step, key: string)
    requires key in s.entries
  {
    match step
    case ClearStep => true
    case DeleteStep(k) => k == key
    case GetStep(k, now) => k == key && s.entries[key].expiresAt < now
    case SweepStep(now) => s.entries[key].expiresAt < now
    case SetStep(_, _, _) => false
  }

  /** A key comes only by being written, and leaves exactly when it ends or is the oldest of a full cache. */
  lemma KeyLeavesIff(maxSize: nat, s: L1, step: Step, key: string)
    requires Stamped(s)
    ensures var after := Next(maxSize, s, step).entries;
            if key !in s.entries then key in after <==> step.SetStep? && step.key == key
            else
              && (key !in after <==>
                    EndsKey(s, step, key) || (step.SetStep? && step.key != key && |s.entries| >= maxSize &&
                                              key != "" && IsOldest(s.entries, key)))
              && (key in after && !(step.SetStep? && step.key == key) ==>
                    after[key] == s.entries[key].(lastHit := after[key].lastHit))
  {
    if IsOldest(s.entries, key) {
      ScanFindsOldest(s, key);
    }
  }

  /** Over every run a key that does not end leaves only after maxSize - 1 other keys were touched since it was. */
  lemma OnlyCrowdedOut(maxSize: nat, steps: seq<Step>, step: Step, key: string)
    requires |steps| < MAX_INT64 && key in Run(maxSize, steps).entries
    requires !EndsKey(Run(maxSize, steps), step, key)
    ensures var s := Run(maxSize, steps);
            key !in Run(maxSize, steps + [step]).entries ==>
              step.SetStep? && s.entries[key].lastHit >= 0 &&
              |KeysFrom(Touches(maxSize, steps), s.entries[key].lastHit)| >= maxSize - 1
  {
    var s, touches := Run(maxSize, steps), Touches(maxSize, steps);
    StampsFollowTouches(maxSize, steps);
    FewTouches(maxSize, steps);
    TouchesAreStamped(s, touches);
    KeyLeavesIff(maxSize, s, step, key);
    assert Run(maxSize, steps + [step]) == Next(maxSize, s, step) by {
      assert (steps + [step])[..|steps|] == steps;
    }
    if key !in Next(maxSize, s, step).entries {
      OthersTouchedLater(s, touches, key);
    }
  }

  lemma TouchesAreStamped(s: L1, touches: seq<string>)
    requires StampsAreTouches(s, touches) && |touches| < MAX_INT64
    ensures Stamped(s)
  {
  }

  lemma {:induction false} FewTouches(maxSize: nat, steps: seq<Step>)
    ensures |Touches(maxSize, steps)| <= |steps|
  {
    if steps != [] {
      FewTouches(maxSize, steps[..|steps| - 1]);
    }
  }

  lemma {:induction false} SubsetSize(a: set<string>, b: set<string>)
    requires a <= b
    ensures |a| <= |b|
    decreases |a|
  {
    if a != {} {
      var x :| x in a;
      SubsetSize(a - {x}, b - {x});
    }
  }
}
