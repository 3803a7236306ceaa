/** Operations on one room value: the record literals of `host` and `join`,
    assignment and deletion of `room.players` entries, the finish bookkeeping,
    the finisher count and the fan-out of a broadcast (server.js). */
module Rooms {
  import opened Wrappers
  import opened RaceTypes

  // ---------------------------------------------------------------------
  // Well-formed rooms and key lookup
  // ---------------------------------------------------------------------

  /** No two entries share a key. */
  ghost predicate UniqueIds(ps: seq<Player>) {
    forall i, j :: 0 <= i < j < |ps| ==> ps[i].id != ps[j].id
  }

  /** Keys are unique, and `started` is set exactly when `startTime` is. */
  ghost predicate WellFormed(r: Room) {
    UniqueIds(r.players) && (r.started <==> r.startTime.Some?)
  }

  /** Where the entry for key `id` sits in insertion order, if there is one. */
  function Find(ps: seq<Player>, id: PlayerId): (k: Option<nat>)
    ensures k.Some? ==> k.value < |ps| && ps[k.value].id == id
    ensures k.Some? ==> forall i :: 0 <= i < k.value ==> ps[i].id != id
    ensures k.None? <==> forall i :: 0 <= i < |ps| ==> ps[i].id != id
  {
    if ps == [] then None
    else if ps[0].id == id then Some(0)
    else
      match Find(ps[1..], id)
      case None => None
      case Some(j) => Some(j + 1)
  }

  /** With unique keys, the entry at position `i` is the one found under its
      own key. */
  lemma FindAt(ps: seq<Player>, i: nat)
    requires UniqueIds(ps) && i < |ps|
    ensures Find(ps, ps[i].id) == Some(i)
  {
  }

  /** `room.players[id]` is defined. */
  predicate Has(r: Room, id: PlayerId) {
    Find(r.players, id).Some?
  }

  /** `room.players[id]` is defined exactly when some entry has key `id`. */
  lemma HasIff(r: Room, id: PlayerId)
    ensures Has(r, id) <==> exists i :: 0 <= i < |r.players| && r.players[i].id == id
  {
    if Has(r, id) {
      var k := Find(r.players, id).value;
      assert r.players[k].id == id;
    }
  }

  /** `room.players[id]`, where it is defined. */
  function Get(r: Room, id: PlayerId): (p: Player)
    requires Has(r, id)
    ensures p.id == id && p in r.players
  {
    r.players[Find(r.players, id).value]
  }

  /** Replacing an entry by one under the same key moves no key. */
  lemma {:induction false} FindAfterReplace(ps: seq<Player>, k: nat, q: Player, id: PlayerId)
    requires k < |ps| && q.id == ps[k].id
    ensures Find(ps[k := q], id) == Find(ps, id)
  {
    if k > 0 {
      assert ps[k := q][1..] == ps[1..][k - 1 := q];
      FindAfterReplace(ps[1..], k - 1, q, id);
    }
  }

  /** Replacing an entry by one under the same key keeps the keys unique. */
  lemma ReplaceUnique(ps: seq<Player>, k: nat, q: Player)
    requires UniqueIds(ps) && k < |ps| && q.id == ps[k].id
    ensures UniqueIds(ps[k := q])
  {
    var t := ps[k := q];
    assert forall i :: 0 <= i < |t| ==> t[i].id == ps[i].id;
  }

  // ---------------------------------------------------------------------
  // Creating rooms and players
  // ---------------------------------------------------------------------

  /** `data.trophies || 0`: a missing count reads as zero. */
  function TrophiesOrZero(trophies: Option<int>): (t: int)
    ensures trophies.None? ==> t == 0
    ensures trophies.Some? ==> t == trophies.value
  {
    match trophies
    case Some(t) => t
    case None => 0
  }

  /** The player record written by `host` and `join`: the client's name,
      vehicle and trophy count with race state zeroed. */
  function NewPlayer(id: PlayerId, name: string, vehicle: string, trophies: Option<int>): (p: Player)
    ensures p.id == id && p.name == name && p.vehicle == vehicle
    ensures p.trophies == TrophiesOrZero(trophies)
    ensures p.x == 0 && !p.finished && p.time == Some(0)
  {
    Player(id, name, vehicle, TrophiesOrZero(trophies), 0, false, Some(0))
  }

  // ---------------------------------------------------------------------
  // room.players[id] = p
  // ---------------------------------------------------------------------

  /** Assigning `room.players[p.id] = p`: a new key goes to the end of the
      insertion order, an existing key keeps its place and gets the new
      record. */
  function Put(r: Room, p: Player): (r': Room)
    requires WellFormed(r)
    ensures WellFormed(r')
    ensures r'.(players := r.players) == r
    ensures Has(r', p.id) && Get(r', p.id) == p
    ensures |r'.players| == if Has(r, p.id) then |r.players| else |r.players| + 1
    ensures Has(r, p.id) ==> r'.players == r.players[Find(r.players, p.id).value := p]
    ensures !Has(r, p.id) ==> r'.players == r.players + [p]
  {
    match Find(r.players, p.id)
    case Some(k) =>
      FindAfterReplace(r.players, k, p, p.id);
      r.(players := r.players[k := p])
    case None =>
      assert (r.players + [p])[|r.players|] == p;
      assert forall i :: 0 <= i < |r.players| ==> (r.players + [p])[i] == r.players[i];
      r.(players := r.players + [p])
  }

  /** An assignment leaves every other key, and its entry, as it was. */
  lemma PutKeepsOthers(r: Room, p: Player, id: PlayerId)
    requires WellFormed(r) && id != p.id
    ensures Has(Put(r, p), id) <==> Has(r, id)
    ensures Has(r, id) ==> Get(Put(r, p), id) == Get(r, id)
  {
    var ps, ps' := r.players, Put(r, p).players;
    if Has(r, id) {
      var j := Find(ps, id).value;
      assert ps'[j] == ps[j];
      FindAt(ps', j);
    }
    if Has(Put(r, p), id) {
      var j := Find(ps', id).value;
      assert j < |ps| && ps[j] == ps'[j];
    }
  }

  /** Players added one after another, as a run of `join` messages does. */
  function JoinAll(r: Room, ps: seq<Player>): (r': Room)
    requires WellFormed(r)
    ensures WellFormed(r')
    decreases |ps|
  {
    if ps == [] then r else JoinAll(Put(r, ps[0]), ps[1..])
  }

  /** Joiners with fresh, distinct ids are appended to the roster in arrival
      order, so a room hosted by one player and joined by N has N + 1 members. */
  lemma {:induction false} RosterAfterJoins(r: Room, ps: seq<Player>)
    requires FreshJoiners(r, ps)
    ensures JoinAll(r, ps).players == r.players + ps
    decreases |ps|
  {
    if ps == [] {
      assert r.players + ps == r.players;
    } else {
      var r1 := JoinStep(r, ps);
      RosterAfterJoins(r1, ps[1..]);
    }
  }

  /** Joiners with distinct ids, none of them already in the room. */
  ghost predicate FreshJoiners(r: Room, ps: seq<Player>) {
    && WellFormed(r)
    && (forall i :: 0 <= i < |ps| ==> !Has(r, ps[i].id))
    && (forall i, j :: 0 <= i < j < |ps| ==> ps[i].id != ps[j].id)
  }

  /** The first fresh joiner is appended, and the rest stay fresh. */
  lemma JoinStep(r: Room, ps: seq<Player>) returns (r1: Room)
    requires FreshJoiners(r, ps) && ps != []
    ensures r1 == Put(r, ps[0]) && r1.players == r.players + [ps[0]]
    ensures FreshJoiners(r1, ps[1..])
    ensures JoinAll(r, ps) == JoinAll(r1, ps[1..])
    ensures r.players + ps == r1.players + ps[1..]
  {
    r1 := Put(r, ps[0]);
    assert r1.players == r.players + [ps[0]];
    assert ps == [ps[0]] + ps[1..];
    assert (r.players + [ps[0]]) + ps[1..] == r.players + ([ps[0]] + ps[1..]);
    forall i | 0 <= i < |ps[1..]| ensures !Has(r1, ps[1..][i].id) {
      assert ps[1..][i] == ps[i + 1];
      PutKeepsOthers(r, ps[0], ps[i + 1].id);
    }
    assert forall i :: 0 <= i < |ps[1..]| ==> ps[1..][i] == ps[i + 1];
  }

  // ---------------------------------------------------------------------
  // delete room.players[id]
  // ---------------------------------------------------------------------

  /** The entries with the one at position `k` cut out, the others in their
      old order. */
  function CutAt(ps: seq<Player>, k: nat): (t: seq<Player>)
    requires k < |ps|
    ensures |t| == |ps| - 1
    ensures forall i :: 0 <= i < |t| ==> t[i] == if i < k then ps[i] else ps[i + 1]
  {
    ps[..k] + ps[k + 1..]
  }

  /** Cutting an entry out keeps the keys unique and drops the cut key. */
  lemma CutUnique(ps: seq<Player>, k: nat)
    requires UniqueIds(ps) && k < |ps|
    ensures UniqueIds(CutAt(ps, k))
    ensures Find(CutAt(ps, k), ps[k].id).None?
  {
    var t := CutAt(ps, k);
    forall i, j | 0 <= i < j < |t| ensures t[i].id != t[j].id {
      var i', j' := if i < k then i else i + 1, if j < k then j else j + 1;
      assert t[i] == ps[i'] && t[j] == ps[j'];
    }
  }

  /** Deleting `room.players[id]`: the entry leaves its place in the insertion
      order and the later entries close up; deleting an absent key changes
      nothing. */
  function Remove(r: Room, id: PlayerId): (r': Room)
    requires WellFormed(r)
    ensures WellFormed(r')
    ensures r'.(players := r.players) == r
    ensures !Has(r', id)
    ensures !Has(r, id) ==> r' == r
    ensures |r'.players| == if Has(r, id) then |r.players| - 1 else |r.players|
    ensures forall k :: 0 <= k < |r.players| && r.players[k].id == id ==>
              r'.players == r.players[..k] + r.players[k + 1..]
  {
    match Find(r.players, id)
    case None => r
    case Some(k) =>
      CutUnique(r.players, k);
      assert forall j :: 0 <= j < |r.players| && r.players[j].id == id ==> j == k;
      r.(players := CutAt(r.players, k))
  }

  /** A deletion leaves every other key, and its entry, as it was. */
  lemma RemoveKeepsOthers(r: Room, id: PlayerId, other: PlayerId)
    requires WellFormed(r) && other != id
    ensures Has(Remove(r, id), other) <==> Has(r, other)
    ensures Has(r, other) ==> Get(Remove(r, id), other) == Get(r, other)
    ensures Has(r, other) ==> Remove(r, id).players != []
  {
    if Has(r, id) {
      var ps, k := r.players, Find(r.players, id).value;
      var t := Remove(r, id).players;
      assert t == CutAt(ps, k);
      if Has(r, other) {
        var j := Find(ps, other).value;
        var j' := if j < k then j else j - 1;
        assert t[j'] == ps[j];
        FindAt(t, j');
      }
      if Has(Remove(r, id), other) {
        var j' := Find(t, other).value;
        var j := if j' < k then j' else j' + 1;
        assert t[j'] == ps[j];
        FindAt(ps, j);
      }
    }
  }

  /** The room empties exactly when the deleted key was its only one. */
  lemma RemoveEmpties(r: Room, id: PlayerId)
    requires WellFormed(r)
    ensures Remove(r, id).players == [] <==> forall i :: 0 <= i < |r.players| ==> r.players[i].id == id
  {
    if Has(r, id) {
      var k := Find(r.players, id).value;
      if |r.players| > 1 {
        var i := if k == 0 then 1 else 0;
        assert r.players[i].id != id;
      }
    } else if r.players != [] {
      assert r.players[0].id != id;
    }
  }

  // ---------------------------------------------------------------------
  // room.players[id].x = x
  // ---------------------------------------------------------------------

  /** `room.players[id].x = x`: that entry's position changes and nothing
      else. */
  function SetX(r: Room, id: PlayerId, x: int): (r': Room)
    requires WellFormed(r) && Has(r, id)
    ensures WellFormed(r')
    ensures r'.(players := r.players) == r && |r'.players| == |r.players|
    ensures forall other :: Find(r'.players, other) == Find(r.players, other)
    ensures Get(r', id) == Get(r, id).(x := x)
    ensures forall other :: Has(r, other) && other != id ==> Get(r', other) == Get(r, other)
  {
    var k := Find(r.players, id).value;
    var ps' := r.players[k := r.players[k].(x := x)];
    assert forall other :: Find(ps', other) == Find(r.players, other) by {
      forall other ensures Find(ps', other) == Find(r.players, other) {
        FindAfterReplace(r.players, k, r.players[k].(x := x), other);
      }
    }
    r.(players := ps')
  }

  // ---------------------------------------------------------------------
  // Finishing
  // ---------------------------------------------------------------------

  /** `Date.now() - room.startTime`; before `start` the difference is NaN. */
  function Elapsed(now: int, startTime: Option<int>): (t: Option<int>)
    ensures t.Some? <==> startTime.Some?
  {
    match startTime
    case Some(s) => Some(now - s)
    case None => None
  }

  /** 1 for a finished record, 0 otherwise. */
  function Flag(p: Player): nat {
    if p.finished then 1 else 0
  }

  /** `players.filter(pl => pl.finished)`: the finished records, in visiting
      order. */
  function FilterFinished(ps: seq<Player>): (f: seq<Player>)
    ensures |f| <= |ps|
    ensures forall p :: p in f ==> p in ps && p.finished
    decreases |ps|
  {
    if ps == [] then []
    else
      var last := ps[|ps| - 1];
      FilterFinished(ps[..|ps| - 1]) + if last.finished then [last] else []
  }

  /** The positions of the finished records. */
  function FinishedAt(ps: seq<Player>): set<int> {
    set i | 0 <= i < |ps| && ps[i].finished
  }

  /** The number of finished records, counted by their positions. */
  function CountFinished(ps: seq<Player>): nat {
    |FinishedAt(ps)|
  }

  /** The count is the length of the filtered records, `finished.length`. */
  lemma {:induction false} CountIsFilterLength(ps: seq<Player>)
    ensures CountFinished(ps) == |FilterFinished(ps)|
    decreases |ps|
  {
    if ps != [] {
      var n := |ps| - 1;
      CountIsFilterLength(ps[..n]);
      FinishedAtLast(ps);
    }
  }

  /** The finished positions of a sequence are those of all but its last
      record, plus the last position when that record has finished. */
  lemma FinishedAtLast(ps: seq<Player>)
    requires ps != []
    ensures var n := |ps| - 1;
            && FinishedAt(ps) == FinishedAt(ps[..n]) + (if ps[n].finished then {n} else {})
            && n !in FinishedAt(ps[..n])
  {
    var n := |ps| - 1;
    assert forall i :: 0 <= i < n ==> ps[..n][i] == ps[i];
  }

  /** The positions below `n`. */
  function Below(n: nat): (s: set<int>)
    ensures |s| == n
    ensures forall i :: i in s <==> 0 <= i < n
  {
    if n == 0 then {} else Below(n - 1) + {n - 1}
  }

  /** Never more finished players than players. */
  lemma CountFinishedBound(ps: seq<Player>)
    ensures CountFinished(ps) <= |ps|
  {
    var all := Below(|ps|);
    assert FinishedAt(ps) + (all - FinishedAt(ps)) == all;
  }

  /** The count is zero exactly when nobody has finished. */
  lemma CountFinishedZero(ps: seq<Player>)
    ensures CountFinished(ps) == 0 <==> forall i :: 0 <= i < |ps| ==> !ps[i].finished
  {
    if CountFinished(ps) != 0 {
      var i :| i in FinishedAt(ps);
    }
    if exists i :: 0 <= i < |ps| && ps[i].finished {
      var i :| 0 <= i < |ps| && ps[i].finished;
      assert i in FinishedAt(ps);
    }
  }

  /** Changing one record changes the count only by that record's flag. */
  lemma CountFinishedUpdate(ps: seq<Player>, k: nat, q: Player)
    requires k < |ps|
    ensures CountFinished(ps[k := q]) + Flag(ps[k]) == CountFinished(ps) + Flag(q)
  {
    var s, s' := FinishedAt(ps), FinishedAt(ps[k := q]);
    var rest := s - {k};
    assert s' - {k} == rest;
    assert s == if ps[k].finished then rest + {k} else rest;
    assert s' == if q.finished then rest + {k} else rest;
  }

  /** `p.finished = true; p.time = Date.now() - room.startTime`: the count
      grows by one. */
  lemma MarkCounts(r: Room, k: nat, now: int)
    requires k < |r.players| && !r.players[k].finished
    ensures var done := r.players[k].(finished := true, time := Elapsed(now, r.startTime));
            CountFinished(r.players[k := done]) == CountFinished(r.players) + 1
  {
    CountFinishedUpdate(r.players, k, r.players[k].(finished := true, time := Elapsed(now, r.startTime)));
  }

  /** `p.trophies += bonus` leaves the count as it was. */
  lemma AwardCounts(r: Room, k: nat, bonus: int)
    requires k < |r.players|
    ensures var won := r.players[k].(trophies := r.players[k].trophies + bonus);
            CountFinished(r.players[k := won]) == CountFinished(r.players)
  {
    CountFinishedUpdate(r.players, k, r.players[k].(trophies := r.players[k].trophies + bonus));
  }

  /** The `finish` handler's updates to a room whose finisher had not
      finished: the player is marked finished with its race time, the position
      is the number of finished players afterwards, among them the finisher,
      and only the first finisher gets a trophy. */
  function RecordFinish(r: Room, id: PlayerId, now: int): (r': Room)
    requires WellFormed(r) && Has(r, id) && !Get(r, id).finished
    ensures WellFormed(r')
    ensures r'.(players := r.players) == r && |r'.players| == |r.players|
    ensures var k := Find(r.players, id).value;
            && (forall i :: 0 <= i < |r.players| && i != k ==> r'.players[i] == r.players[i])
            && r'.players[k] == r.players[k].(finished := true, time := Elapsed(now, r.startTime),
                 trophies := r.players[k].trophies + if CountFinished(r'.players) == 1 then 1 else 0)
    ensures CountFinished(r'.players) == CountFinished(r.players) + 1
    ensures 1 <= CountFinished(r'.players) <= |r.players|
    ensures CountFinished(r'.players) == 1 <==> forall i :: 0 <= i < |r.players| ==> !r.players[i].finished
  {
    var k := Find(r.players, id).value;
    var done := r.players[k].(finished := true, time := Elapsed(now, r.startTime));
    var marked := r.(players := r.players[k := done]);
    MarkCounts(r, k, now);
    CountFinishedZero(r.players);
    CountFinishedBound(marked.players);
    ReplaceUnique(r.players, k, done);
    if CountFinished(marked.players) == 1 then
      AwardCounts(marked, k, 1);
      ReplaceUnique(marked.players, k, done.(trophies := done.trophies + 1));
      marked.(players := marked.players[k := done.(trophies := done.trophies + 1)])
    else
      marked
  }

  /** `RecordFinish` moves no key. */
  lemma RecordFinishKeys(r: Room, id: PlayerId, now: int, other: PlayerId)
    requires WellFormed(r) && Has(r, id) && !Get(r, id).finished
    ensures Find(RecordFinish(r, id, now).players, other) == Find(r.players, other)
  {
    var k := Find(r.players, id).value;
    var r' := RecordFinish(r, id, now);
    assert r'.players == r.players[k := r'.players[k]];
    FindAfterReplace(r.players, k, r'.players[k], other);
  }

  /** Arrivals of distinct members of a well-formed room, none of whom has
      finished. */
  ghost predicate FreshArrivals(r: Room, arrivals: seq<(PlayerId, int)>) {
    && WellFormed(r)
    && (forall i :: 0 <= i < |arrivals| ==> Has(r, arrivals[i].0) && !Get(r, arrivals[i].0).finished)
    && (forall i, j :: 0 <= i < j < |arrivals| ==> arrivals[i].0 != arrivals[j].0)
  }

  /** After the first arrival finishes, the others are still fresh. */
  lemma ArrivalsStayFresh(r: Room, arrivals: seq<(PlayerId, int)>)
    requires FreshArrivals(r, arrivals) && arrivals != []
    ensures FreshArrivals(RecordFinish(r, arrivals[0].0, arrivals[0].1), arrivals[1..])
  {
    var r1 := RecordFinish(r, arrivals[0].0, arrivals[0].1);
    forall i | 0 <= i < |arrivals[1..]|
      ensures Has(r1, arrivals[1..][i].0) && !Get(r1, arrivals[1..][i].0).finished
    {
      assert arrivals[1..][i] == arrivals[i + 1];
      RecordFinishKeys(r, arrivals[0].0, arrivals[0].1, arrivals[i + 1].0);
    }
    assert forall i :: 0 <= i < |arrivals[1..]| ==> arrivals[1..][i] == arrivals[i + 1];
  }

  /** The positions handed out by a run of `finish` messages in one room, each
      arrival a player id and the clock reading; a player who has already
      finished gets no position. */
  function FinishAll(r: Room, arrivals: seq<(PlayerId, int)>): (res: (Room, seq<nat>))
    requires WellFormed(r)
    requires forall i :: 0 <= i < |arrivals| ==> Has(r, arrivals[i].0)
    ensures WellFormed(res.0) && |res.0.players| == |r.players|
    ensures forall i :: 0 <= i < |r.players| ==> res.0.players[i].id == r.players[i].id
    decreases |arrivals|
  {
    if arrivals == [] then (r, [])
    else
      var id, now := arrivals[0].0, arrivals[0].1;
      assert forall i :: 0 <= i < |arrivals[1..]| ==> arrivals[1..][i] == arrivals[i + 1];
      if Get(r, id).finished then FinishAll(r, arrivals[1..])
      else
        var r1 := RecordFinish(r, id, now);
        assert forall i :: 0 <= i < |arrivals[1..]| ==> Has(r1, arrivals[1..][i].0) by {
          forall i | 0 <= i < |arrivals[1..]| ensures Has(r1, arrivals[1..][i].0) {
            RecordFinishKeys(r, id, now, arrivals[1..][i].0);
            assert Find(r1.players, arrivals[1..][i].0) == Find(r.players, arrivals[1..][i].0);
            assert Has(r, arrivals[1..][i].0);
          }
        }
        var rest := FinishAll(r1, arrivals[1..]);
        (rest.0, [CountFinished(r1.players)] + rest.1)
  }

  /** Distinct players who had not finished, finishing one after another, get
      consecutive positions after those already finished: in a race nobody has
      finished yet, the i-th arrival (counting from 0) gets position i + 1. */
  lemma {:induction false} FinishPositions(r: Room, arrivals: seq<(PlayerId, int)>)
    requires FreshArrivals(r, arrivals)
    ensures |FinishAll(r, arrivals).1| == |arrivals|
    ensures forall i :: 0 <= i < |arrivals| ==> FinishAll(r, arrivals).1[i] == CountFinished(r.players) + 1 + i
    decreases |arrivals|
  {
    if arrivals != [] {
      var r1 := PositionStep(r, arrivals);
      FinishPositions(r1, arrivals[1..]);
      RunFrom(FinishAll(r, arrivals).1, FinishAll(r1, arrivals[1..]).1, CountFinished(r.players) + 1);
    }
  }

  /** A run starting at `c` followed by a run starting at `c + 1` is a run
      starting at `c`. */
  lemma RunFrom(ps: seq<nat>, tail: seq<nat>, c: nat)
    requires ps == [c] + tail
    requires forall i :: 0 <= i < |tail| ==> tail[i] == c + 1 + i
    ensures forall i :: 0 <= i < |ps| ==> ps[i] == c + i
  {
    forall i | 0 <= i < |ps| ensures ps[i] == c + i {
      if i > 0 {
        assert ps[i] == tail[i - 1];
      }
    }
  }

  /** The first arrival of a fresh run gets the next position, and the rest
      of the run is fresh in the room it leaves. */
  lemma PositionStep(r: Room, arrivals: seq<(PlayerId, int)>) returns (r1: Room)
    requires FreshArrivals(r, arrivals) && arrivals != []
    ensures r1 == RecordFinish(r, arrivals[0].0, arrivals[0].1)
    ensures FreshArrivals(r1, arrivals[1..])
    ensures CountFinished(r1.players) == CountFinished(r.players) + 1
    ensures FinishAll(r, arrivals).1 == [CountFinished(r.players) + 1] + FinishAll(r1, arrivals[1..]).1
  {
    r1 := RecordFinish(r, arrivals[0].0, arrivals[0].1);
    ArrivalsStayFresh(r, arrivals);
  }

  /** Of distinct players finishing a race nobody has finished yet, only the
      first arrival's trophy count grows, by exactly one; after a first finish
      nobody's grows. */
  lemma {:induction false} FinishTrophies(r: Room, arrivals: seq<(PlayerId, int)>)
    requires FreshArrivals(r, arrivals)
    ensures forall i :: 0 <= i < |r.players| ==>
              FinishAll(r, arrivals).0.players[i].trophies
              == r.players[i].trophies
                 + (if CountFinished(r.players) == 0 && |arrivals| > 0 && r.players[i].id == arrivals[0].0 then 1 else 0)
    decreases |arrivals|
  {
    if arrivals != [] {
      var (id, now) := arrivals[0];
      var r1 := RecordFinish(r, id, now);
      ArrivalsStayFresh(r, arrivals);
      FinishTrophies(r1, arrivals[1..]);
      FindAtAll(r.players);
    }
  }

  /** Every entry is found at its own position. */
  lemma FindAtAll(ps: seq<Player>)
    requires UniqueIds(ps)
    ensures forall i :: 0 <= i < |ps| ==> Find(ps, ps[i].id) == Some(i)
  {
    forall i | 0 <= i < |ps| ensures Find(ps, ps[i].id) == Some(i) {
      FindAt(ps, i);
    }
  }

  // ---------------------------------------------------------------------
  // Broadcast
  // ---------------------------------------------------------------------

  /** One copy of `m` for each player, in visiting order. */
  function Fanout(ps: seq<Player>, m: Msg): (ds: seq<Delivery>)
    ensures |ds| == |ps|
    ensures forall i :: 0 <= i < |ps| ==> ds[i] == (ps[i].id, m)
  {
    seq(|ps|, i requires 0 <= i < |ps| => (ps[i].id, m))
  }
}
