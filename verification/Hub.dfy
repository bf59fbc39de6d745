/** The WebSocket hub: rooms list their members, and every client lists its rooms. */
module Hub {

  class Client {
    const id: string
    /** The rooms the client lists; a nil map reads like an empty one. */
    var rooms: set<string>
    var closed: bool

    constructor (id: string)
      ensures this.id == id && rooms == {} && !closed
    {
      this.id, rooms, closed := id, {}, false;
    }
  }

  type Rooms = map<string, map<string, Client>>

  predicate Lists(rooms: Rooms, room: string, id: string) {
    room in rooms && id in rooms[room]
  }

  // ---- The two indexes, as values ---------------------------------------------------

  /** `rooms[room][client.id] = client`, creating the room. */
  function WithMember(rooms: Rooms, room: string, client: Client): Rooms {
    var members: map<string, Client> := if room in rooms then rooms[room] else map[];
    rooms[room := members[client.id := client]]
  }

  /** Takes one member out of one room, and the room away when it was the last. */
  function WithoutMember(rooms: Rooms, room: string, id: string): Rooms {
    if room !in rooms then rooms
    else if |rooms[room] - {id}| == 0 then rooms - {room}
    else rooms[room := rooms[room] - {id}]
  }

  ghost predicate NoEmptyRoom(rooms: Rooms) {
    forall room | room in rooms :: |rooms[room]| > 0
  }

  /** A room lists a client exactly when the client lists the room. */
  ghost predicate Inverse(joined: map<string, set<string>>, rooms: Rooms) {
    forall id, room | id in joined :: room in joined[id] <==> Lists(rooms, room, id)
  }

  /** Every listed member is the client registered under its id. */
  ghost predicate MembersRegistered(clients: map<string, Client>, rooms: Rooms) {
    forall room, id | Lists(rooms, room, id) :: id in clients && rooms[room][id] == clients[id]
  }

  ghost predicate Consistent(clients: map<string, Client>, joined: map<string, set<string>>, rooms: Rooms) {
    && joined.Keys == clients.Keys
    && (forall id | id in clients :: clients[id].id == id)
    && Inverse(joined, rooms) && MembersRegistered(clients, rooms) && NoEmptyRoom(rooms)
  }

  /** Same members as before, except possibly client `id` in the given rooms. */
  ghost predicate Removed(before: Rooms, after: Rooms, gone: set<string>, id: string) {
    && (forall r, i :: Lists(after, r, i) <==> Lists(before, r, i) && !(i == id && r in gone))
    && (forall r, i | Lists(after, r, i) :: after[r][i] == before[r][i])
    && (NoEmptyRoom(before) ==> NoEmptyRoom(after))
  }

  lemma WithoutMemberRemoves(rooms: Rooms, room: string, id: string)
    ensures Removed(rooms, WithoutMember(rooms, room, id), {room}, id)
  {
  }

  lemma RemovedCompose(a: Rooms, b: Rooms, c: Rooms, gone: set<string>, room: string, id: string)
    requires Removed(a, b, gone, id) && Removed(b, c, {room}, id)
    ensures Removed(a, c, gone + {room}, id)
  {
    forall r, i ensures Lists(c, r, i) <==> Lists(a, r, i) && !(i == id && r in gone + {room}) {
      assert Lists(c, r, i) <==> Lists(b, r, i) && !(i == id && r in {room});
    }
  }

  /** Same members as before, and `client` in one room. */
  ghost predicate Added(before: Rooms, after: Rooms, room: string, client: Client) {
    && (forall r, i :: Lists(after, r, i) <==> Lists(before, r, i) || (r == room && i == client.id))
    && (forall r, i | Lists(after, r, i) :: after[r][i] == if r == room && i == client.id then client else before[r][i])
    && (NoEmptyRoom(before) ==> NoEmptyRoom(after))
  }

  lemma WithMemberAdds(rooms: Rooms, room: string, client: Client)
    ensures Added(rooms, WithMember(rooms, room, client), room, client)
  {
    var after := WithMember(rooms, room, client);
    assert client.id in after[room].Keys;
  }

  lemma JoinOfRegistered(clients: map<string, Client>, joined: map<string, set<string>>, rooms: Rooms,
                         after: Rooms, room: string, client: Client)
    requires Consistent(clients, joined, rooms) && Added(rooms, after, room, client)
    requires client.id in clients && clients[client.id] == client
    ensures Consistent(clients, joined[client.id := joined[client.id] + {room}], after)
  {
    InverseAfterJoin(joined, rooms, after, room, client);
  }

  lemma InverseAfterJoin(joined: map<string, set<string>>, rooms: Rooms, after: Rooms, room: string, client: Client)
    requires Inverse(joined, rooms) && Added(rooms, after, room, client) && client.id in joined
    ensures Inverse(joined[client.id := joined[client.id] + {room}], after)
  {
    var joined' := joined[client.id := joined[client.id] + {room}];
    forall i, r | i in joined' ensures r in joined'[i] <==> Lists(after, r, i) {
      assert r in joined[i] <==> Lists(rooms, r, i);
    }
  }

  lemma JoinOfStranger(clients: map<string, Client>, joined: map<string, set<string>>,
                       after: Rooms, before: Rooms, room: string, client: Client)
    requires Added(before, after, room, client)
    requires !(client.id in clients && clients[client.id] == client)
    ensures !Consistent(clients, joined, after)
  {
    assert Lists(after, room, client.id) && after[room][client.id] == client;
  }

  /** Removing a client from rooms it no longer lists keeps the indexes consistent. */
  lemma RemovalConsistent(clients: map<string, Client>, joined: map<string, set<string>>, rooms: Rooms,
                          after: Rooms, gone: set<string>, id: string)
    requires Consistent(clients, joined, rooms) && Removed(rooms, after, gone, id)
    ensures Consistent(clients, if id in joined then joined[id := joined[id] - gone] else joined, after)
  {
    var joined' := if id in joined then joined[id := joined[id] - gone] else joined;
    forall i, r | i in joined' ensures r in joined'[i] <==> Lists(after, r, i) {
      assert r in joined[i] <==> Lists(rooms, r, i);
    }
  }

  /** A client taken out of all its rooms and out of the register leaves nothing behind. */
  lemma LeaveEverywhere(clients: map<string, Client>, joined: map<string, set<string>>, rooms: Rooms,
                        after: Rooms, gone: set<string>, id: string)
    requires Consistent(clients, joined, rooms) && Removed(rooms, after, gone, id)
    requires id in joined ==> joined[id] <= gone
    ensures Consistent(clients - {id}, joined - {id}, after)
    ensures forall room :: !Lists(after, room, id)
  {
    forall r ensures !Lists(after, r, id) {
      assert id in joined ==> (r in joined[id] <==> Lists(rooms, r, id));
    }
    RemovalConsistent(clients, joined, rooms, after, gone, id);
  }

  // ---- The hub ---------------------------------------------------------------------------

  class Hub {
    var clients: map<string, Client>
    var rooms: Rooms

    constructor ()
      ensures clients == map[] && rooms == map[] && Valid()
    {
      clients, rooms := map[], map[];
    }

    /** The room lists of the registered clients. */
    ghost function Joined(): map<string, set<string>>
      reads this, clients.Values
    {
      map id | id in clients :: clients[id].rooms
    }

    ghost predicate Valid()
      reads this, clients.Values
    {
      Consistent(clients, Joined(), rooms)
    }

    predicate Registered(c: Client)
      reads this
    {
      c.id in clients && clients[c.id] == c
    }

    /** No other client goes by this client's id. */
    predicate UniqueId(c: Client)
      reads this
    {
      c.id in clients ==> clients[c.id] == c
    }

    /** Registering keeps the indexes consistent when the id is new and the client lists no room. */
    method Register(client: Client)
      modifies this`clients
      ensures clients == old(clients)[client.id := client]
      ensures old(Valid()) && client.id !in old(clients) ==> (Valid() <==> client.rooms == {})
    {
      clients := clients[client.id := client];
      if old(Valid()) && client.id !in old(clients) {
        assert Joined() == old(Joined())[client.id := client.rooms];
        RegisterConsistentIff(old(clients), old(Joined()), rooms, client, client.rooms);
      }
    }

    method RemoveMember(room: string, id: string)
      modifies this`rooms
      ensures rooms == WithoutMember(old(rooms), room, id)
    {
      if room in rooms {
        var members := rooms[room] - {id};
        rooms := rooms[room := members];
        if |members| == 0 {
          rooms := rooms - {room};
          assert rooms == old(rooms) - {room};
        }
      }
    }

    method LeaveAll(gone: set<string>, id: string)
      modifies this`rooms
      ensures Removed(old(rooms), rooms, gone, id)
    {
      var todo := gone;
      while todo != {}
        invariant todo <= gone
        invariant Removed(old(rooms), rooms, gone - todo, id)
        decreases |todo|
      {
        var room :| room in todo;
        ghost var before := rooms;
        RemoveMember(room, id);
        WithoutMemberRemoves(before, room, id);
        RemovedCompose(old(rooms), before, rooms, gone - todo, room, id);
        assert gone - (todo - {room}) == gone - todo + {room};
        todo := todo - {room};
      }
      assert gone - todo == gone;
    }

    /** Leaves every room the client lists; the client keeps its own list, and is closed on every call. */
    method Unregister(client: Client)
      modifies this, client`closed
      ensures clients == old(clients) - {client.id} && client.closed
      ensures Removed(old(rooms), rooms, client.rooms, client.id)
      ensures old(Valid()) && old(UniqueId(client)) ==> Valid() && forall room :: !Lists(rooms, room, client.id)
    {
      ghost var joined, before, listed := Joined(), rooms, client.rooms;
      ghost var safe := Valid() && UniqueId(client);
      clients := clients - {client.id};
      LeaveAll(client.rooms, client.id);
      client.closed := true;
      if safe {
        LeaveEverywhere(old(clients), joined, before, rooms, listed, client.id);
        assert Joined() == joined - {client.id};
      }
    }

    method AddMember(room: string, client: Client)
      modifies this`rooms
      ensures rooms == WithMember(old(rooms), room, client)
    {
      if room !in rooms {
        rooms := rooms[room := map[]];
      }
      rooms := rooms[room := rooms[room][client.id := client]];
      assert rooms == WithMember(old(rooms), room, client);
    }

    /** Joining keeps the indexes consistent exactly when the client is registered. */
    method JoinRoom(room: string, client: Client)
      modifies this`rooms, client`rooms
      ensures client.rooms == old(client.rooms) + {room} && rooms == WithMember(old(rooms), room, client)
      ensures old(Valid()) ==> (Valid() <==> Registered(client))
    {
      ghost var joined, before := Joined(), rooms;
      ghost var safe := Valid();
      AddMember(room, client);
      WithMemberAdds(before, room, client);
      client.rooms := client.rooms + {room};
      if safe && Registered(client) {
        JoinOfRegistered(clients, joined, before, rooms, room, client);
        assert Joined() == joined[client.id := joined[client.id] + {room}];
      } else if safe {
        JoinOfStranger(clients, Joined(), rooms, before, room, client);
      }
    }

    method LeaveRoom(room: string, client: Client)
      modifies this`rooms, client`rooms
      ensures client.rooms == old(client.rooms) - {room} && rooms == WithoutMember(old(rooms), room, client.id)
      ensures old(Valid()) && UniqueId(client) ==> Valid() && !Lists(rooms, room, client.id)
    {
      ghost var joined := Joined();
      RemoveMember(room, client.id);
      client.rooms := client.rooms - {room};
      WithoutMemberRemoves(old(rooms), room, client.id);
      if old(Valid()) && UniqueId(client) {
        RemovalConsistent(clients, joined, old(rooms), rooms, {room}, client.id);
        if client.id in clients {
          assert Joined() == joined[client.id := joined[client.id] - {room}];
        } else {
          assert Joined() == joined;
        }
      }
    }
  }

  lemma RegisterConsistentIff(clients: map<string, Client>, joined: map<string, set<string>>, rooms: Rooms,
                              client: Client, listed: set<string>)
    requires Consistent(clients, joined, rooms) && client.id !in clients
    ensures Consistent(clients[client.id := client], joined[client.id := listed], rooms) <==> listed == {}
  {
    var joined' := joined[client.id := listed];
    assert forall room :: !Lists(rooms, room, client.id);
    if listed != {} {
      var room :| room in listed;
      assert room in joined'[client.id] && !Lists(rooms, room, client.id);
    }
  }

  /** Both pumps of a connection unregister it: afterwards no room lists it, and every other membership stands. */
  method UnregisterTwice(hub: Hub, client: Client)
    requires hub.Valid() && hub.Registered(client)
    modifies hub, client`closed
    ensures hub.Valid() && hub.clients == old(hub.clients) - {client.id}
    ensures forall room :: !Lists(hub.rooms, room, client.id)
    ensures forall room, id | id != client.id :: Lists(hub.rooms, room, id) <==> Lists(old(hub.rooms), room, id)
  {
    hub.Unregister(client);
    ghost var once := hub.rooms;
    hub.Unregister(client);
    forall room, id | id != client.id ensures Lists(hub.rooms, room, id) <==> Lists(old(hub.rooms), room, id) {
      assert Lists(once, room, id) <==> Lists(old(hub.rooms), room, id);
    }
    assert hub.clients == old(hub.clients) - {client.id};
  }

  // ---- Runs ---------------------------------------------------------------------------------

  datatype Event =
    | Enter(client: Client)
    | Exit(client: Client)
    | Join(room: string, client: Client)
    | Leave(room: string, client: Client)

  /** The hub together with the room list of every client, registered or not. */
  datatype State = State(clients: map<string, Client>, listed: map<Client, set<string>>, rooms: Rooms)

  function ListOf(s: State, client: Client): set<string> {
    if client in s.listed then s.listed[client] else {}
  }

  function JoinedOf(s: State): map<string, set<string>> {
    map id | id in s.clients :: ListOf(s, s.clients[id])
  }

  /** What the methods of the hub promise about each event. */
  ghost predicate Step(s: State, event: Event, s': State) {
    match event
    case Enter(c) => s' == s.(clients := s.clients[c.id := c])
    case Exit(c) =>
      s'.clients == s.clients - {c.id} && s'.listed == s.listed && Removed(s.rooms, s'.rooms, ListOf(s, c), c.id)
    case Join(room, c) =>
      s' == s.(listed := s.listed[c := ListOf(s, c) + {room}], rooms := WithMember(s.rooms, room, c))
    case Leave(room, c) =>
      s' == s.(listed := s.listed[c := ListOf(s, c) - {room}], rooms := WithoutMember(s.rooms, room, c.id))
  }

  /** Ids are unique, clients register with an empty list, and only registered clients join. */
  predicate Allowed(s: State, event: Event) {
    match event
    case Enter(c) => c.id !in s.clients && ListOf(s, c) == {}
    case Join(_, c) => c.id in s.clients && s.clients[c.id] == c
    case Exit(c) => c.id in s.clients ==> s.clients[c.id] == c
    case Leave(_, c) => c.id in s.clients ==> s.clients[c.id] == c
  }

  ghost predicate Good(s: State) {
    Consistent(s.clients, JoinedOf(s), s.rooms)
  }

  lemma EnterKeepsGood(s: State, c: Client, s': State)
    requires Good(s) && Allowed(s, Enter(c)) && Step(s, Enter(c), s')
    ensures Good(s')
  {
    RegisterConsistentIff(s.clients, JoinedOf(s), s.rooms, c, {});
    assert JoinedOf(s') == JoinedOf(s)[c.id := {}];
  }

  lemma ExitKeepsGood(s: State, c: Client, s': State)
    requires Good(s) && Allowed(s, Exit(c)) && Step(s, Exit(c), s')
    ensures Good(s')
  {
    LeaveEverywhere(s.clients, JoinedOf(s), s.rooms, s'.rooms, ListOf(s, c), c.id);
    assert JoinedOf(s') == JoinedOf(s) - {c.id};
  }

  /** A client's new list shows under its own id, if it is registered, and nowhere else. */
  lemma JoinedAfterListing(s: State, c: Client, list: set<string>, rooms: Rooms)
    requires forall id | id in s.clients :: s.clients[id].id == id
    requires c.id in s.clients ==> s.clients[c.id] == c
    ensures JoinedOf(s.(listed := s.listed[c := list], rooms := rooms)) ==
            if c.id in s.clients then JoinedOf(s)[c.id := list] else JoinedOf(s)
  {
  }

  lemma JoinKeepsGood(s: State, room: string, c: Client, s': State)
    requires Good(s) && Allowed(s, Join(room, c)) && Step(s, Join(room, c), s')
    ensures Good(s')
  {
    WithMemberAdds(s.rooms, room, c);
    JoinedAfterListing(s, c, ListOf(s, c) + {room}, s'.rooms);
    JoinOfRegistered(s.clients, JoinedOf(s), s.rooms, s'.rooms, room, c);
  }

  lemma LeaveKeepsGood(s: State, room: string, c: Client, s': State)
    requires Good(s) && Allowed(s, Leave(room, c)) && Step(s, Leave(room, c), s')
    ensures Good(s')
  {
    WithoutMemberRemoves(s.rooms, room, c.id);
    JoinedAfterListing(s, c, ListOf(s, c) - {room}, s'.rooms);
    RemovalConsistent(s.clients, JoinedOf(s), s.rooms, s'.rooms, {room}, c.id);
  }

  lemma StepKeepsGood(s: State, event: Event, s': State)
    requires Good(s) && Allowed(s, event) && Step(s, event, s')
    ensures Good(s')
  {
    match event
    case Enter(c) => EnterKeepsGood(s, c, s');
    case Exit(c) => ExitKeepsGood(s, c, s');
    case Join(room, c) => JoinKeepsGood(s, room, c, s');
    case Leave(room, c) => LeaveKeepsGood(s, room, c, s');
  }

  /** The history's own answer: a client is in a room from joining it until it leaves the room or the hub. */
  predicate Member(events: seq<Event>, room: string, id: string) {
    events != [] &&
    var before, last := events[..|events| - 1], events[|events| - 1];
    match last
    case Enter(_) => Member(before, room, id)
    case Exit(c) => c.id != id && Member(before, room, id)
    case Join(r, c) => (r == room && c.id == id) || Member(before, room, id)
    case Leave(r, c) => !(r == room && c.id == id) && Member(before, room, id)
  }

  predicate Present(events: seq<Event>, id: string) {
    events != [] &&
    var before, last := events[..|events| - 1], events[|events| - 1];
    match last
    case Enter(c) => c.id == id || Present(before, id)
    case Exit(c) => c.id != id && Present(before, id)
    case _ => Present(before, id)
  }

  /** The states of a run, from the empty hub on. */
  ghost predicate Trace(states: seq<State>, events: seq<Event>) {
    && |states| == |events| + 1
    && states[0] == State(map[], map[], map[])
    && forall i | 0 <= i < |events| :: Allowed(states[i], events[i]) && Step(states[i], events[i], states[i + 1])
  }

  lemma StepFollowsHistory(s: State, event: Event, s': State, room: string, id: string)
    requires Good(s) && Allowed(s, event) && Step(s, event, s')
    ensures match event
            case Enter(_) => Lists(s'.rooms, room, id) <==> Lists(s.rooms, room, id)
            case Exit(c) => Lists(s'.rooms, room, id) <==> c.id != id && Lists(s.rooms, room, id)
            case Join(r, c) => Lists(s'.rooms, room, id) <==> (r == room && c.id == id) || Lists(s.rooms, room, id)
            case Leave(r, c) => Lists(s'.rooms, room, id) <==> !(r == room && c.id == id) && Lists(s.rooms, room, id)
  {
    match event
    case Enter(_) =>
    case Exit(c) => LeaveEverywhere(s.clients, JoinedOf(s), s.rooms, s'.rooms, ListOf(s, c), c.id);
    case Join(r, c) => WithMemberAdds(s.rooms, r, c);
    case Leave(r, c) => WithoutMemberRemoves(s.rooms, r, c.id);
  }

  /**
   * After every run the two indexes are consistent, and a room lists exactly the clients that the
   * history of joins, leaves and exits puts there.
   */
  lemma {:induction false} RoomsFollowHistory(states: seq<State>, events: seq<Event>)
    requires Trace(states, events)
    ensures Good(states[|events|])
    ensures forall room, id :: Lists(states[|events|].rooms, room, id) <==> Member(events, room, id)
    ensures forall id :: id in states[|events|].clients <==> Present(events, id)
    decreases |events|
  {
    if events != [] {
      var k := |events| - 1;
      RoomsFollowHistory(states[..k + 1], events[..k]);
      assert Allowed(states[k], events[k]) && Step(states[k], events[k], states[k + 1]);
      StepKeepsGood(states[k], events[k], states[k + 1]);
      forall room, id ensures Lists(states[k + 1].rooms, room, id) <==> Member(events, room, id) {
        StepFollowsHistory(states[k], events[k], states[k + 1], room, id);
      }
    }
  }
}
