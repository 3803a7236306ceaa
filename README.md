# Race server rooms, modelled in Dafny

The race server keeps a process-wide dictionary `rooms` from a room code to a
room. A room has a host, a background, a started flag, a start time and a
dictionary of players. Each connection remembers its `currentRoom`. Seven
handlers change this state: `host`, `join`, `background`, `start`, `move`,
`finish` and the connection's `close`. Each one ends by sending a reply to the
sender, broadcasting to the room's players, both, or nothing. Nothing is sent
when a guard turns the message away (server.js:97, 106, 116, 125) or when
`close` deletes the room it emptied (server.js:148).

The model is a class `RaceServer.Server` with three fields:

- `rooms: map<RoomCode, Room>`.
- `current: map<PlayerId, RoomCode>`, each connection's `currentRoom`. A
  connection with no entry has a null `currentRoom`.
- `outbox: seq<Delivery>`, every message handed to the transport, in order.

There is one method per handler. The values the source draws from
`Date.now()` and `Math.random()` are parameters: the clock reading `now`, the
connection's `playerId` and the `code` that `generateRoomCode` returned.

A room is a datatype value (`RaceTypes.Room`). Its `players` field is a
sequence of records in insertion order. That is the order in which
`Object.values(room.players)` visits them, because no key looks like an array
index: JavaScript would visit integer-like keys first, in ascending order,
but every player id is `Date.now() + "_" + …` (server.js:39) and contains
"_". The model's `PlayerId` is an unconstrained string and relies on this. The key of a record is its `id`,
and keys are unique. Writing a field of a room or of a player record in place
becomes rewriting the room's entry in `rooms`. These are equivalent because
no two rooms share a record: a handler reaches a room only through `rooms`.

The room-level operations are in module `Rooms`:

- assigning and deleting a `room.players` entry;
- moving a player;
- recording a finish;
- counting finishers;
- the fan-out of a broadcast.

The lemmas there say what these operations keep and what they change. Module
`RaceServer` holds the class, two state invariants and the lemmas that the
handlers preserve them:

- `Valid`: every room is filed under a code `generateRoomCode` can produce,
  has unique keys, is marked started exactly when it has a start time, and
  is non-empty.
- `Attached`: every connection with a current room is a player of it.

Behaviour the model keeps as the code has it:

- `host` does not check for a code collision. It replaces whatever
  `rooms[code]` held, so `Attached` is preserved only when the code was
  fresh.
- `start` is not guarded against repeats. A repeated `start` writes the start
  time again.
- `finish` reads `room.players[playerId].finished` without checking that the
  entry exists (server.js:125). JavaScript would throw there, so
  `Server.Finish` has a membership precondition instead of an invented guard.
  `FinishIsGuarded` proves that the precondition holds in every state where
  `Valid` and `Attached` hold.
- A missing start time (`undefined` before `start`) is `None`. A race time
  computed from it, NaN in JavaScript, is `None` too.
- With a null `currentRoom`, `rooms[currentRoom]` reads the key `"null"`. The
  model reads the same key (`NullKey`). No generated code equals it
  (`NullKeyNotGenerated`), so under `Valid` the lookup always misses.
- `close` tests `currentRoom && rooms[currentRoom]`. An empty room code is
  falsy, and `Math.random()` returning 0 yields one. A close in a room filed
  under `""` therefore does nothing.

The intended design differs from the code in the following places, and the
model follows the code in each:

- The design re-checks a generated code against the registry and regenerates
  it on a collision. The code does not.
- The design makes a repeated `start` a no-op that keeps the first start
  time. The code overwrites it and does not require the room to be in its
  lobby phase.
- The design accepts `move` and `update` as one message kind. The code handles
  only `move`.
- The design makes `finish` from an unknown session a silent no-op, and no
  single message ends a connection or the process. The code reads
  `room.players[playerId].finished` unguarded and throws a TypeError for a
  connection that is not a player of its current room (server.js:125). The
  model states this as `Server.Finish`'s membership precondition.
- The design puts a session in at most one room at a time. In the code, a
  second `host` or a `join` to another room leaves the connection's entry in
  the old room (server.js:56, 78), and `close` deletes only from the current
  room (server.js:146). The model keeps such stale entries.

## Model

| member | source | states |
|---|---|---|
| Rooms.Find | server.js:116 | under `Some(k)`, position `k` holds key `id` and no earlier position does; `None` exactly when no entry has key `id` |
| Rooms.FindAt | server.js:116 | with unique keys, the entry at position `i` is the one found under its own key |
| Rooms.Has | server.js:116 | `room.players[id]` is defined; the key is found in the roster (the row below characterises it) |
| Rooms.HasIff | server.js:116 | `room.players[id]` is defined exactly when some entry has key `id` |
| Rooms.Get | server.js:125-127 | `room.players[id]` has key `id` and is one of the room's entries |
| Rooms.FindAfterReplace | server.js:117 | replacing an entry by one with the same key moves no key |
| Rooms.ReplaceUnique | server.js:117 | replacing an entry by one with the same key keeps the keys unique |
| Rooms.Put | server.js:78-87 | `room.players[p.id] = p` keeps the room well formed and its other fields; afterwards `room.players[p.id]` is `p`; a new key is appended to the insertion order and grows the roster by one; an existing key's entry is replaced where it stands, so every other entry keeps its place and the order of rosters and deliveries is unchanged |
| Rooms.PutKeepsOthers | server.js:78-87 | the assignment leaves every other key present or absent as before, and its entry unchanged |
| Rooms.JoinAll | server.js:74-91 | joins one after another keep the room well formed |
| Rooms.RosterAfterJoins | server.js:78-90 | joiners with fresh, distinct ids are appended in arrival order, so the roster is the old roster followed by the joiners |
| Rooms.JoinStep | server.js:78-90 | the first fresh joiner is appended, the remaining joiners stay fresh, and the rest of the run starts from the room it leaves |
| Rooms.CutUnique | server.js:146 | cutting an entry out keeps the keys unique and removes the cut key |
| Rooms.Remove | server.js:146 | `delete room.players[id]` keeps the room well formed and its other fields; the key is gone afterwards; an absent key changes nothing; a present one shortens the roster by one and closes the gap in insertion order |
| Rooms.RemoveKeepsOthers | server.js:146 | the deletion leaves every other key present or absent as before, and its entry unchanged; a room that held another key is not empty afterwards |
| Rooms.RemoveEmpties | server.js:146-147 | the room has no players left exactly when every entry had the deleted key |
| Rooms.SetX | server.js:117 | `room.players[id].x = x` changes that entry's `x` and nothing else; it moves no key and keeps the room well formed |
| Rooms.Elapsed | server.js:129 | `Date.now() - room.startTime` is defined exactly when the start time is (NaN otherwise) |
| Rooms.FilterFinished | server.js:131 | `Object.values(room.players).filter(pl => pl.finished)` keeps only finished records of the room, and no more records than the room has |
| Rooms.CountFinished | server.js:131-132 | the finisher count; `CountIsFilterLength` ties it to `finished.length`, and the rows below give its bounds and its change |
| Rooms.CountIsFilterLength | server.js:131-132 | the count is the length of the filtered sequence, `finished.length` |
| Rooms.FinishedAtLast | server.js:131 | the finished positions are those of all but the last record, plus the last position when that record has finished |
| Rooms.CountFinishedBound | server.js:131-132 | never more finished players than players |
| Rooms.CountFinishedZero | server.js:131-132 | the count is zero exactly when nobody has finished |
| Rooms.CountFinishedUpdate | server.js:131-132 | rewriting one record changes the count only by that record's finished flag |
| Rooms.MarkCounts | server.js:128-132 | marking an unfinished player finished raises the count by one |
| Rooms.AwardCounts | server.js:135 | `p.trophies += 1` leaves the count as it was |
| Rooms.RecordFinish | server.js:127-135 | for an unfinished member: the room stays well formed with the same header and length; only that entry changes; it becomes finished with time `now - startTime` (`None` before `start`); the count grows by exactly one; the position is between 1 and the number of players; the position is 1 exactly when nobody had finished; the trophies grow by one exactly when the position is 1 |
| Rooms.RecordFinishKeys | server.js:127-135 | a finish moves no key |
| Rooms.ArrivalsStayFresh | server.js:123-141 | after the first arrival of a run of distinct, unfinished members finishes, the rest are still unfinished members |
| Rooms.FinishAll | server.js:123-141 | a run of `finish` messages in one room keeps it well formed, with the same keys at the same positions |
| Rooms.PositionStep | server.js:131-132 | the room after the first arrival of a fresh run is `RecordFinish` of that arrival; that arrival gets the next position and raises the count by one; the rest of the run stays fresh |
| Rooms.FinishPositions | server.js:131-132 | distinct unfinished members finishing one after another get consecutive positions after those already finished; when nobody has finished yet, the i-th arrival gets position i + 1 |
| Rooms.FinishTrophies | server.js:134-135 | over such a run, only the first arrival's trophies grow, by exactly one, and only when nobody had finished before the run |
| Rooms.FindAtAll | server.js:116 | with unique keys, every entry is found at its own position |
| Rooms.TrophiesOrZero | server.js:61 | the `trophies` field read with a default of 0: a missing count reads as 0, a given one as itself |
| Rooms.NewPlayer | server.js:56-65 | the record `host` and `join` write: the connection's id, the client's name and vehicle, the trophies or 0, with x 0, not finished and time 0 |
| Rooms.Fanout | server.js:28 | one delivery of the message per player, to that player, in the order `Object.values` visits them |
| RaceServer.GeneratedCode | server.js:31-33 | what `generateRoomCode` returns: at most four characters, each a digit or an upper-case letter (the empty code included) |
| RaceServer.NullKeyNotGenerated | server.js:31-33 | no code `generateRoomCode` returns equals `"null"`, the key a null `currentRoom` reads |
| RaceServer.Server.CurrentKey | server.js:96 | the key `rooms[currentRoom]` reads: the current room, or `"null"` while it is null |
| RaceServer.Server.LiveRoom | server.js:145 | the close handler's test `currentRoom && rooms[currentRoom]`, with an empty code falsy |
| RaceServer.NullRoomMisses | server.js:96-124 | with a null `currentRoom`, the lookup of `background`, `start`, `move` and `finish` finds no room, so they change nothing |
| RaceServer.SameKeysKeepAttached | server.js:95-120 | rewriting a room without moving its keys keeps every connection in its current room |
| RaceServer.HostKeepsAttached | server.js:49-67 | filing a new room under a fresh code, with the host as a member, keeps every connection in its current room, the host in the new one |
| RaceServer.JoinKeepsAttached | server.js:78-89 | a join keeps every connection in its current room, the joiner in the room it joined |
| RaceServer.FinishKeepsAttached | server.js:127-135 | a finish keeps every connection in its current room |
| RaceServer.CloseKeepsAttached | server.js:144-153 | after a close, every other connection is still in its current room, whether the room was refiled or deleted |
| RaceServer.ValidAfterStore | server.js:49 | filing a well-formed, non-empty room under a generated code keeps the rooms valid |
| RaceServer.ValidAfterRemove | server.js:146-148 | deleting a room, or refiling it while it still has players, keeps the rooms valid |
| RaceServer.Server.constructor | server.js:14 | the server starts with no rooms, no connection in a room and nothing sent; both invariants hold |
| RaceServer.Server.Store | server.js:49 | `rooms[key] = r` changes that entry and nothing else |
| RaceServer.Server.Delete | server.js:148 | `delete rooms[key]` removes that entry and nothing else |
| RaceServer.Server.Send | server.js:19-23 | `send` appends one delivery to the outbox |
| RaceServer.Server.Broadcast | server.js:25-29 | `broadcast` appends one copy of the message per player of the room, in insertion order, and nothing for a missing room |
| RaceServer.Server.Host | server.js:47-70 | `rooms[code]` is replaced by a room with this host, background "red", not started, and the host as its only player with x 0, not finished, time 0 and the supplied trophies or 0; the current room becomes `code`; the sender gets `hosted` and then `playersUpdate`; the rooms stay valid, and connections stay attached when the code was fresh |
| RaceServer.Server.Join | server.js:74-91 | an unknown code changes neither `rooms` nor the current room, and sends exactly one "Room not found" error to the sender; otherwise only the joiner's entry is written, with zeroed race state; the current room is set; every member, the joiner included, gets `playersUpdate`; both invariants are kept |
| RaceServer.Server.Background | server.js:95-101 | when the requester hosts the current room, only its background changes and every member gets `backgroundUpdate`; otherwise no state changes and nothing is sent |
| RaceServer.Server.Start | server.js:104-111 | when the requester hosts the current room, the room is marked started at `now`, also on a repeat, with its players unchanged, and every member gets `raceStart` with the current background; otherwise nothing changes and nothing is sent |
| RaceServer.Server.Move | server.js:114-120 | when the current room exists and holds the player, only that player's `x` changes, in any phase, and every member gets `sync`; otherwise nothing changes and nothing is sent |
| RaceServer.Server.Finish | server.js:123-141 | with no current room, or for a player who has already finished, nothing changes; otherwise the room becomes `RecordFinish` of it, and the outbox gains the `trophy` reply (first finisher only), then `position` with the number of finished players, then `playersUpdate` to every member; the current room is untouched and both invariants are kept |
| RaceServer.Server.AnnounceFinish | server.js:134-140 | the trophy reply comes only at position 1 and before the position reply, and the roster broadcast comes last |
| RaceServer.Server.Close | server.js:144-153 | with a live current room, only the player's entry is deleted; the room is deleted exactly when it has no players left; otherwise it is refiled and its remaining players get `playersUpdate`; other rooms are untouched; without a live current room, nothing changes; both invariants are kept |
| RaceServer.FinishIsGuarded | server.js:125 | wherever both invariants hold, the `finish` handler's unchecked read of the player's entry finds it whenever the room exists |

## Left out

- The WebSocket server, the port and its environment variable, and the log
  line (server.js:5-9) are transport and I/O.
- `JSON.parse`, `JSON.stringify` and the silent drop of a message that does
  not parse (server.js:21, 44) are library calls. Inbound messages arrive
  already decoded, as method parameters.
- `send` checks `ws.readyState` (server.js:20). The model takes every
  connection to be open, so a send always lands in the outbox.
- `Date.now()` and `Math.random()` (server.js:32, 39, 108, 129) are
  nondeterministic. They are the parameters `now`, `playerId` and `code`.
  `Server.Host` requires only that `code` is something `generateRoomCode`
  can return.
- The `ws` handle in each player record is left out. Messages keep only their
  kind and key fields. A roster in a message is the room's records at the
  moment of sending.
- Message dispatch on `data.type` is one method per kind. Messages of any
  other kind do nothing in the source and have no method.
- Fields read from `data` are taken to be as intended: names, vehicles,
  backgrounds and codes are strings; `x` and `trophies` are integers.
  JavaScript's coercions on other types are not modelled, for example
  `"5" + 1` for a string trophy count, or a numeric room code used as a key.
- Keys inherited through the prototype of `rooms = {}`, such as
  `"constructor"`, are not modelled. A `join` naming one would find a truthy
  non-room and throw. The model treats every code not filed in `rooms` as
  unknown.
- Each handler invocation is one atomic step. Event-loop concurrency is not
  modelled.
- RaceServer.Server.Finish: requires that the player belongs to the room it finishes
  in. The source does not check this at server.js:125 and would throw a
  TypeError for a non-member. `FinishIsGuarded` shows the precondition holds
  wherever `Valid` and `Attached` hold.
- RaceServer.Server.Host: keeps `Attached` only when the code is fresh. After a
  collision, the old room's other players still name that code as their
  current room but are not in the new room. A `finish` from one of them would
  then throw.
- RaceServer.Server.Close: also drops the connection's entry from `current`, since
  nothing can reach the connection's closure after it closes.
- A connection that hosts again, or joins another room, stays a member of
  the room it left, as in the source. `close` deletes the entry only from
  the connection's current room (server.js:145-146), so the old room keeps
  the entry for good. A room holding such an entry never empties and is never
  deleted. Host authority is never handed to another player.
- RaceServer.Server.Broadcast: the outbox records a delivery to every entry of
  the room, stale entries of closed connections included. The source's `send`
  drops those, because their socket is no longer open (server.js:20).
