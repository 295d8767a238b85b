/** The rolling record of which room each player stood in over the last
    thirty seconds, and the clue it gives a Specialist when a fire starts:
    who was recently in the origin room or next to it. */
module ProximityTracker {
  import opened Common
  import opened RoomGraph
  import opened PlayerAccess
  import FireNotifications

  const TrackingWindow: real := 30.0
  const SampleInterval: real := 2.0

  datatype Sample = Sample(player: string, room: string, time: real)

  datatype Tracker = Tracker(timer: real, samples: seq<Sample>)

  const Initial := Tracker(0.0, [])

  /** A player as the game lists it: id, current room (none between
      rooms) and lobby user name. */
  datatype Presence = Presence(id: string, room: Option<string>, username: string)

  /** One sample per player who is in a room, in player-list order. */
  function Positions(players: seq<Presence>, now: real): (r: seq<Sample>)
    ensures |r| <= |players|
    ensures forall x :: x in r <==>
      exists i :: 0 <= i < |players| && players[i].room.Some? &&
        x == Sample(players[i].id, players[i].room.value, now)
  {
    if |players| == 0 then []
    else
      var rest := Positions(players[1..], now);
      assert forall i :: 0 < i < |players| ==> players[i] == players[1..][i - 1];
      var p := players[0];
      if p.room.Some? then [Sample(p.id, p.room.value, now)] + rest else rest
  }

  /** Keeps the samples no older than the tracking window, in order. */
  function Prune(samples: seq<Sample>, now: real): (r: seq<Sample>)
    ensures |r| <= |samples|
    ensures forall x :: x in r <==> x in samples && x.time >= now - TrackingWindow
  {
    if |samples| == 0 then []
    else
      var rest := Prune(samples[1..], now);
      assert forall x :: x in samples <==> x == samples[0] || x in samples[1..];
      if samples[0].time < now - TrackingWindow then rest else [samples[0]] + rest
  }

  /** One frame: sample and prune once the accumulated time reaches the
      sampling interval, then restart the timer. */
  function Update(t: Tracker, players: seq<Presence>, dt: real, now: real): (r: Tracker)
    ensures t.timer + dt < SampleInterval ==> r == Tracker(t.timer + dt, t.samples)
    ensures t.timer + dt >= SampleInterval ==> r.timer == 0.0
  {
    var timer := t.timer + dt;
    if timer < SampleInterval then t.(timer := timer)
    else Tracker(0.0, Prune(t.samples + Positions(players, now), now))
  }

  /** After a sampling frame the buffer holds exactly the earlier samples
      still inside the window and one sample per player currently in a room. */
  lemma SamplingFrame(t: Tracker, players: seq<Presence>, dt: real, now: real, x: Sample)
    requires t.timer + dt >= SampleInterval
    requires forall s :: s in t.samples ==> s.time <= now
    ensures x in Update(t, players, dt, now).samples <==>
      (x in t.samples && x.time >= now - TrackingWindow) ||
      (exists i :: 0 <= i < |players| && players[i].room.Some? &&
         x == Sample(players[i].id, players[i].room.value, now))
    ensures forall s :: s in Update(t, players, dt, now).samples ==>
      now - TrackingWindow <= s.time <= now
  {
    var all := t.samples + Positions(players, now);
    assert forall s :: s in all <==> s in t.samples || s in Positions(players, now);
  }

  /** The entries, each listed once. */
  function Distinct(s: seq<string>): (r: seq<string>)
    ensures NoDups(r)
    ensures forall x :: x in r <==> x in s
    decreases |s|
  {
    if |s| == 0 then []
    else
      var init := s[..|s| - 1];
      var rest := Distinct(init);
      assert forall x :: x in s <==> x in init || x == s[|s| - 1];
      if s[|s| - 1] in rest then rest
      else
        assert forall i :: 0 <= i < |rest| ==> (rest + [s[|s| - 1]])[i] == rest[i];
        rest + [s[|s| - 1]]
  }

  /** The origin room or one of its neighbours. */
  predicate Relevant(g: Graph, origin: string, room: string) {
    room == origin || Adjacent(g, origin, room)
  }

  /** The players of the samples taken in a relevant room. */
  function PlayersIn(samples: seq<Sample>, g: Graph, origin: string): (r: seq<string>)
    ensures forall x :: x in r <==> (exists i :: 0 <= i < |samples| &&
                                       Relevant(g, origin, samples[i].room) && samples[i].player == x)
  {
    if |samples| == 0 then []
    else
      var rest := PlayersIn(samples[1..], g, origin);
      assert forall i :: 0 < i < |samples| ==> samples[i] == samples[1..][i - 1];
      if Relevant(g, origin, samples[0].room) then [samples[0].player] + rest else rest
  }

  /** The distinct players recently seen in or next to the origin room. */
  function NearbyPlayerIds(samples: seq<Sample>, g: Graph, origin: string): (r: seq<string>)
    requires WellFormed(g)
    ensures NoDups(r)
    ensures forall x :: x in r <==> (exists i :: 0 <= i < |samples| &&
                                       (samples[i].room == origin || samples[i].room in GetAdjacentRooms(g, origin)) &&
                                       samples[i].player == x)
  {
    Distinct(PlayersIn(samples, g, origin))
  }

  /** The user name of the first listed player with this id, or the id. */
  function NameOf(players: seq<Presence>, id: string): (n: string)
    ensures (forall i :: 0 <= i < |players| ==> players[i].id != id) ==> n == id
    ensures forall i :: (0 <= i < |players| && players[i].id == id &&
                         (forall j :: 0 <= j < i ==> players[j].id != id)) ==> n == players[i].username
  {
    if |players| == 0 then id
    else if players[0].id == id then players[0].username
    else
      assert forall i :: 0 < i < |players| ==> players[i] == players[1..][i - 1];
      NameOf(players[1..], id)
  }

  function Names(players: seq<Presence>, ids: seq<string>): (r: seq<string>)
    ensures |r| == |ids|
    ensures forall k :: 0 <= k < |ids| ==> r[k] == NameOf(players, ids[k])
  {
    if |ids| == 0 then [] else [NameOf(players, ids[0])] + Names(players, ids[1..])
  }

  /** The clue shown when a fire starts in `origin`: only to a local
      Specialist, and only when somebody was seen nearby; none otherwise. */
  function OnFireStarted(t: Tracker, local: Option<PlayerInfo>, g: Graph, origin: string,
                         players: seq<Presence>): (r: Option<FireNotifications.Clue>)
    requires WellFormed(g)
    ensures r.Some? ==> local.Some? && local.value.role == Specialist
    ensures r.Some? <==> (local.Some? && local.value.role == Specialist &&
                          exists i :: 0 <= i < |t.samples| && Relevant(g, origin, t.samples[i].room))
    ensures r.Some? ==> r.value == FireNotifications.ProximityClue(origin,
      Names(players, NearbyPlayerIds(t.samples, g, origin)))
  {
    if local.None? || local.value.role != Specialist then None
    else
      var ids := NearbyPlayerIds(t.samples, g, origin);
      assert forall i :: 0 <= i < |t.samples| && Relevant(g, origin, t.samples[i].room) ==>
        t.samples[i].player in ids;
      if |ids| == 0 then
        None
      else
        assert ids[0] in ids;
        Some(FireNotifications.ProximityClue(origin, Names(players, ids)))
  }
}
