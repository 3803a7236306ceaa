/** The data the race server keeps and the messages it sends (server.js). */
module RaceTypes {
  import opened Wrappers

  /** A connection's identifier, made from a timestamp, "_" and random digits. */
  type PlayerId = string

  /** A room code as the client types it. */
  type RoomCode = string

  /** One entry of `room.players` (the connection handle `ws` is left out).
      `time` is None where JavaScript would hold NaN. */
  datatype Player = Player(
    id: PlayerId,
    name: string,
    vehicle: string,
    trophies: int,
    x: int,
    finished: bool,
    time: Option<int>)

  /** One value of the `rooms` dictionary. `startTime` is None until `start`
      writes it. `players` holds the entries of `room.players` in insertion
      order, the order in which `Object.values(room.players)` visits them; a
      key is the `id` of its entry. Insertion order is visiting order because
      every player id contains "_" and so is never an integer-like key, which
      JavaScript would visit first. */
  datatype Room = Room(
    hostId: PlayerId,
    background: string,
    started: bool,
    startTime: Option<int>,
    players: seq<Player>)

  /** Outbound messages, by kind and key fields. A roster is the snapshot of
      `room.players` taken when the message is serialised. */
  datatype Msg =
    | Hosted(roomCode: RoomCode)
    | Error(message: string)
    | PlayersUpdate(roster: seq<Player>)
    | BackgroundUpdate(background: string)
    | RaceStart(background: string)
    | Sync(roster: seq<Player>)
    | Trophy(trophies: int)
    | Position(position: nat)

  /** A message handed to the transport for one recipient. */
  type Delivery = (PlayerId, Msg)

  const RoomNotFound: string := "Room not found"
  const DefaultBackground: string := "red"
}
