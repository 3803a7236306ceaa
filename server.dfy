/** The race server's process state and its message handlers (server.js):
    the `rooms` dictionary, each connection's `currentRoom`, and the
    messages handed to the transport, one method per handler. */
module RaceServer {
  import opened Wrappers
  import opened RaceTypes
  import opened Rooms

  /** The key `rooms[currentRoom]` reads while `currentRoom` is null. */
  const NullKey: RoomCode := "null"

  /** What `generateRoomCode` can return: `Math.random().toString(36)`
      without its "0." prefix, cut to at most four digits and upper-cased. */
  predicate GeneratedCode(c: RoomCode) {
    |c| <= 4 && forall i :: 0 <= i < |c| ==> ('0' <= c[i] <= '9' || 'A' <= c[i] <= 'Z')
  }

  /** No room is ever filed under the key a null `currentRoom` reads. */
  lemma NullKeyNotGenerated()
    ensures !GeneratedCode(NullKey)
  {
    assert NullKey[0] == 'n';
  }

  /** Every room is filed under a generated code, is well formed and has at
      least one player: a room is created with its host and deleted when its
      last player leaves. */
  ghost predicate ValidRooms(rooms: map<RoomCode, Room>) {
    forall c :: c in rooms ==> GeneratedCode(c) && WellFormed(rooms[c]) && rooms[c].players != []
  }

  /** Every connection with a current room is a player of that room. */
  ghost predicate AttachedTo(rooms: map<RoomCode, Room>, current: map<PlayerId, RoomCode>) {
    forall id :: id in current ==> current[id] in rooms && Has(rooms[current[id]], id)
  }

  /** Rewriting a room without moving its keys keeps every connection in its
      room. */
  lemma SameKeysKeepAttached(rooms: map<RoomCode, Room>, current: map<PlayerId, RoomCode>,
                             key: RoomCode, r: Room)
    requires AttachedTo(rooms, current) && key in rooms
    requires forall id :: Find(r.players, id) == Find(rooms[key].players, id)
    ensures AttachedTo(rooms[key := r], current)
  {
  }

  /** A host's fresh room keeps every other connection in its room. */
  lemma HostKeepsAttached(rooms: map<RoomCode, Room>, current: map<PlayerId, RoomCode>,
                          code: RoomCode, r: Room, id: PlayerId)
    requires AttachedTo(rooms, current) && code !in rooms && Has(r, id)
    ensures AttachedTo(rooms[code := r], current[id := code])
  {
  }

  /** A join keeps every connection in its room, the joiner in the one it
      joined. */
  lemma JoinKeepsAttached(rooms: map<RoomCode, Room>, current: map<PlayerId, RoomCode>,
                          code: RoomCode, p: Player)
    requires AttachedTo(rooms, current) && code in rooms && WellFormed(rooms[code])
    ensures AttachedTo(rooms[code := Put(rooms[code], p)], current[p.id := code])
  {
    forall id | id in current && id != p.id && current[id] == code
      ensures Has(Put(rooms[code], p), id)
    {
      PutKeepsOthers(rooms[code], p, id);
    }
  }

  /** A finish moves no key of its room. */
  lemma FinishKeepsAttached(rooms: map<RoomCode, Room>, current: map<PlayerId, RoomCode>,
                            key: RoomCode, id: PlayerId, now: int)
    requires AttachedTo(rooms, current) && key in rooms
    requires WellFormed(rooms[key]) && Has(rooms[key], id) && !Get(rooms[key], id).finished
    ensures AttachedTo(rooms[key := RecordFinish(rooms[key], id, now)], current)
  {
    forall other ensures Find(RecordFinish(rooms[key], id, now).players, other) == Find(rooms[key].players, other) {
      RecordFinishKeys(rooms[key], id, now, other);
    }
    SameKeysKeepAttached(rooms, current, key, RecordFinish(rooms[key], id, now));
  }

  /** A close keeps every other connection in its room: the room it leaves
      still holds them, so it is deleted only when none of them is left. */
  lemma CloseKeepsAttached(rooms: map<RoomCode, Room>, current: map<PlayerId, RoomCode>, id: PlayerId)
    requires AttachedTo(rooms, current) && ValidRooms(rooms)
    requires id in current && current[id] in rooms
    ensures var key := current[id];
            var r := Remove(rooms[key], id);
            AttachedTo(if r.players == [] then rooms - {key} else rooms[key := r], current - {id})
  {
    var key := current[id];
    var r := Remove(rooms[key], id);
    forall other | other in current && other != id && current[other] == key
      ensures Has(r, other) && r.players != []
    {
      RemoveKeepsOthers(rooms[key], id, other);
    }
  }

  /** Filing a valid room under a generated code keeps the rooms valid. */
  lemma ValidAfterStore(rooms: map<RoomCode, Room>, key: RoomCode, r: Room)
    requires ValidRooms(rooms) && GeneratedCode(key) && WellFormed(r) && r.players != []
    ensures ValidRooms(rooms[key := r])
  {
  }

  /** After a deletion from a room, deleting the room if it emptied and
      refiling it otherwise keeps the rooms valid. */
  lemma ValidAfterRemove(rooms: map<RoomCode, Room>, key: RoomCode, r: Room)
    requires ValidRooms(rooms) && key in rooms && WellFormed(r)
    ensures ValidRooms(rooms - {key})
    ensures r.players != [] ==> ValidRooms(rooms[key := r])
  {
  }

  class Server {
    /** The `rooms` dictionary. */
    var rooms: map<RoomCode, Room>
    /** Each connection's `currentRoom`; no entry while it is null. */
    var current: map<PlayerId, RoomCode>
    /** Every message sent so far, to whom, in order. */
    var outbox: seq<Delivery>

    /** The rooms are valid. */
    ghost predicate Valid()
      reads this
    {
      ValidRooms(rooms)
    }

    /** Every connection with a current room is a player of that room. */
    ghost predicate Attached()
      reads this
    {
      AttachedTo(rooms, current)
    }

    /** The key `rooms[currentRoom]` reads for connection `id`. */
    function CurrentKey(id: PlayerId): RoomCode
      reads this
    {
      if id in current then current[id] else NullKey
    }

    /** Whether `currentRoom && rooms[currentRoom]` holds for connection `id`:
        the close handler's test (an empty code is falsy). */
    predicate LiveRoom(id: PlayerId)
      reads this
    {
      id in current && current[id] != "" && current[id] in rooms
    }

    /** A server with no rooms, no connections in a room and nothing sent. */
    constructor ()
      ensures Valid() && Attached()
      ensures rooms == map[] && current == map[] && outbox == []
    {
      rooms := map[];
      current := map[];
      outbox := [];
    }

    /** `rooms[key] = r`, or an in-place update of the room filed there. */
    method Store(key: RoomCode, r: Room)
      modifies this`rooms
      ensures rooms == old(rooms)[key := r]
    {
      rooms := rooms[key := r];
    }

    /** `delete rooms[key]`. */
    method Delete(key: RoomCode)
      modifies this`rooms
      ensures rooms == old(rooms) - {key}
    {
      rooms := rooms - {key};
    }

    /** `send(ws, data)`, with every connection taken to be open. */
    method Send(to: PlayerId, m: Msg)
      modifies this`outbox
      ensures outbox == old(outbox) + [(to, m)]
    {
      outbox := outbox + [(to, m)];
    }

    /** `broadcast(roomCode, data)`: one copy to each player of the room, in
        insertion order; nothing when there is no such room. */
    method Broadcast(code: RoomCode, m: Msg)
      modifies this`outbox
      ensures outbox == old(outbox) + if code in rooms then Fanout(rooms[code].players, m) else []
    {
      if code !in rooms {
        return;
      }
      var ps := rooms[code].players;
      var i := 0;
      while i < |ps|
        invariant 0 <= i <= |ps|
        invariant outbox == old(outbox) + Fanout(ps[..i], m)
      {
        assert Fanout(ps[..i + 1], m) == Fanout(ps[..i], m) + [(ps[i].id, m)];
        Send(ps[i].id, m);
        i := i + 1;
      }
      assert ps[..i] == ps;
    }

    /** The `host` handler, with `code` the value `generateRoomCode` returned:
        whatever `rooms[code]` held is replaced by a room with this player as
        host and only member; the player gets `hosted`, then the room's
        roster. */
    method Host(playerId: PlayerId, name: string, vehicle: string, trophies: Option<int>, code: RoomCode)
      requires Valid() && GeneratedCode(code)
      modifies this
      ensures Valid()
      ensures var p := NewPlayer(playerId, name, vehicle, trophies);
              && rooms == old(rooms)[code := Room(playerId, DefaultBackground, false, None, [p])]
              && current == old(current)[playerId := code]
              && outbox == old(outbox) + [(playerId, Hosted(code)), (playerId, PlayersUpdate([p]))]
      ensures old(Attached()) && code !in old(rooms) ==> Attached()
    {
      var p := NewPlayer(playerId, name, vehicle, trophies);
      var r := Room(playerId, DefaultBackground, false, None, [p]);
      if code !in rooms && Attached() {
        HostKeepsAttached(rooms, current, code, r, playerId);
      }
      ValidAfterStore(rooms, code, r);
      Store(code, r);
      current := current[playerId := code];
      Send(playerId, Hosted(code));
      Broadcast(code, PlayersUpdate(r.players));
    }

    /** The `join` handler. An unknown code changes nothing and sends the
        sender a "Room not found" error. Otherwise the player's entry is
        written with zeroed race state, the connection's current room
        becomes that room, and every member, the joiner among them, gets the
        new roster. */
    method Join(playerId: PlayerId, name: string, vehicle: string, trophies: Option<int>, roomCode: RoomCode)
      requires Valid()
      modifies this
      ensures Valid()
      ensures roomCode !in old(rooms) ==>
                && rooms == old(rooms) && current == old(current)
                && outbox == old(outbox) + [(playerId, Error(RoomNotFound))]
      ensures roomCode in old(rooms) ==>
                var r := Put(old(rooms)[roomCode], NewPlayer(playerId, name, vehicle, trophies));
                && rooms == old(rooms)[roomCode := r]
                && current == old(current)[playerId := roomCode]
                && outbox == old(outbox) + Fanout(r.players, PlayersUpdate(r.players))
      ensures old(Attached()) ==> Attached()
    {
      if roomCode !in rooms {
        Send(playerId, Error(RoomNotFound));
        return;
      }
      var p := NewPlayer(playerId, name, vehicle, trophies);
      var r := Put(rooms[roomCode], p);
      if Attached() {
        JoinKeepsAttached(rooms, current, roomCode, p);
      }
      ValidAfterStore(rooms, roomCode, r);
      Store(roomCode, r);
      current := current[playerId := roomCode];
      Broadcast(roomCode, PlayersUpdate(r.players));
    }

    /** The `background` handler: only the host of the connection's current
        room may set its background, which every member is then told;
        anything else changes nothing and sends nothing. */
    method Background(playerId: PlayerId, value: string)
      requires Valid()
      modifies this`rooms, this`outbox
      ensures Valid() && current == old(current)
      ensures var key := old(CurrentKey(playerId));
              if key in old(rooms) && old(rooms)[key].hostId == playerId then
                var r := old(rooms)[key].(background := value);
                && rooms == old(rooms)[key := r]
                && outbox == old(outbox) + Fanout(r.players, BackgroundUpdate(value))
              else
                rooms == old(rooms) && outbox == old(outbox)
      ensures old(Attached()) ==> Attached()
    {
      var key := CurrentKey(playerId);
      if key !in rooms || rooms[key].hostId != playerId {
        return;
      }
      var r := rooms[key].(background := value);
      ValidAfterStore(rooms, key, r);
      Store(key, r);
      Broadcast(key, BackgroundUpdate(r.background));
    }

    /** The `start` handler: only the host of the connection's current room
        may start it, which marks it started at `now`, also when it was
        started before, and tells every member the background; anything
        else changes nothing and sends nothing. */
    method Start(playerId: PlayerId, now: int)
      requires Valid()
      modifies this`rooms, this`outbox
      ensures Valid() && current == old(current)
      ensures var key := old(CurrentKey(playerId));
              if key in old(rooms) && old(rooms)[key].hostId == playerId then
                var r := old(rooms)[key].(started := true, startTime := Some(now));
                && rooms == old(rooms)[key := r]
                && outbox == old(outbox) + Fanout(r.players, RaceStart(r.background))
              else
                rooms == old(rooms) && outbox == old(outbox)
      ensures old(Attached()) ==> Attached()
    {
      var key := CurrentKey(playerId);
      if key !in rooms || rooms[key].hostId != playerId {
        return;
      }
      var r := rooms[key].(started := true, startTime := Some(now));
      ValidAfterStore(rooms, key, r);
      Store(key, r);
      Broadcast(key, RaceStart(r.background));
    }

    /** The `move` handler: in any phase of the race, a player of the
        connection's current room moves to `x` and every member gets the new
        roster; otherwise nothing changes and nothing is sent. */
    method Move(playerId: PlayerId, x: int)
      requires Valid()
      modifies this`rooms, this`outbox
      ensures Valid() && current == old(current)
      ensures var key := old(CurrentKey(playerId));
              if key in old(rooms) && Has(old(rooms)[key], playerId) then
                var r := SetX(old(rooms)[key], playerId, x);
                && rooms == old(rooms)[key := r]
                && outbox == old(outbox) + Fanout(r.players, Sync(r.players))
              else
                rooms == old(rooms) && outbox == old(outbox)
      ensures old(Attached()) ==> Attached()
    {
      var key := CurrentKey(playerId);
      if key !in rooms || !Has(rooms[key], playerId) {
        return;
      }
      var r := SetX(rooms[key], playerId, x);
      if Attached() {
        SameKeysKeepAttached(rooms, current, key, r);
      }
      ValidAfterStore(rooms, key, r);
      Store(key, r);
      Broadcast(key, Sync(rooms[key].players));
    }

    /** The `finish` handler. Without a current room, or for a player who has
        finished, it does nothing. Otherwise the player is marked finished
        with its race time, its position is the number of finished players in
        the room, the first finisher alone gets a trophy and is told its new
        count, then the player is told its position and every member gets the
        new roster. The handler reads the player's entry without checking it
        exists, so the precondition asks that the player belong to the room
        it finishes in. */
    method Finish(playerId: PlayerId, now: int)
      requires Valid()
      requires CurrentKey(playerId) in rooms ==> Has(rooms[CurrentKey(playerId)], playerId)
      modifies this`rooms, this`outbox
      ensures Valid() && current == old(current)
      ensures var key := old(CurrentKey(playerId));
              if key !in old(rooms) || Get(old(rooms)[key], playerId).finished then
                rooms == old(rooms) && outbox == old(outbox)
              else
                var r := RecordFinish(old(rooms)[key], playerId, now);
                var position := CountFinished(r.players);
                && rooms == old(rooms)[key := r]
                && outbox == old(outbox)
                   + (if position == 1 then [(playerId, Trophy(Get(r, playerId).trophies))] else [])
                   + [(playerId, Position(position))]
                   + Fanout(r.players, PlayersUpdate(r.players))
      ensures old(Attached()) ==> Attached()
    {
      var key := CurrentKey(playerId);
      if key !in rooms {
        return;
      }
      if Get(rooms[key], playerId).finished {
        return;
      }
      var r := RecordFinish(rooms[key], playerId, now);
      if Attached() {
        FinishKeepsAttached(rooms, current, key, playerId, now);
      }
      ValidAfterStore(rooms, key, r);
      Store(key, r);
      AnnounceFinish(key, playerId);
    }

    /** The replies of `finish` once the room is updated: the first finisher
        is told its trophy count, the finisher its position, the number of
        finished players, and every member the new roster. */
    method AnnounceFinish(key: RoomCode, playerId: PlayerId)
      requires key in rooms && Has(rooms[key], playerId)
      modifies this`outbox
      ensures var r := rooms[key];
              var position := CountFinished(r.players);
              outbox == old(outbox)
                + (if position == 1 then [(playerId, Trophy(Get(r, playerId).trophies))] else [])
                + [(playerId, Position(position))]
                + Fanout(r.players, PlayersUpdate(r.players))
    {
      var position := CountFinished(rooms[key].players);
      if position == 1 {
        Send(playerId, Trophy(Get(rooms[key], playerId).trophies));
      }
      Send(playerId, Position(position));
      Broadcast(key, PlayersUpdate(rooms[key].players));
    }

    /** The connection's `close` handler. When its current room exists, the
        player's entry goes; a room left without players is deleted, and
        otherwise its remaining members get the new roster. Other rooms are
        untouched. The connection's current room goes with it. */
    method Close(playerId: PlayerId)
      requires Valid()
      modifies this
      ensures Valid()
      ensures current == old(current) - {playerId}
      ensures old(LiveRoom(playerId)) ==>
                var key := old(current)[playerId];
                var r := Remove(old(rooms)[key], playerId);
                if r.players == [] then
                  rooms == old(rooms) - {key} && outbox == old(outbox)
                else
                  && rooms == old(rooms)[key := r]
                  && outbox == old(outbox) + Fanout(r.players, PlayersUpdate(r.players))
      ensures !old(LiveRoom(playerId)) ==> rooms == old(rooms) && outbox == old(outbox)
      ensures old(Attached()) ==> Attached()
    {
      if LiveRoom(playerId) {
        var key := current[playerId];
        if Attached() {
          CloseKeepsAttached(rooms, current, playerId);
        }
        var r := Remove(rooms[key], playerId);
        ValidAfterRemove(rooms, key, r);
        if |r.players| == 0 {
          Delete(key);
        } else {
          Store(key, r);
          Broadcast(key, PlayersUpdate(r.players));
        }
      }
      current := current - {playerId};
    }
  }

  /** In every state the handlers keep, the `finish` handler's lookup of the
      player's entry succeeds whenever the room exists: its precondition
      never fails where no `host` reused a live code. */
  lemma FinishIsGuarded(s: Server, playerId: PlayerId)
    requires s.Valid() && s.Attached()
    ensures s.CurrentKey(playerId) in s.rooms ==> Has(s.rooms[s.CurrentKey(playerId)], playerId)
  {
    NullKeyNotGenerated();
  }

  /** A connection whose `currentRoom` is null finds no room: `background`,
      `start`, `move` and `finish` then change nothing. */
  lemma NullRoomMisses(s: Server, playerId: PlayerId)
    requires s.Valid() && playerId !in s.current
    ensures s.CurrentKey(playerId) !in s.rooms
  {
    NullKeyNotGenerated();
  }
}
