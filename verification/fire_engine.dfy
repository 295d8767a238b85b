/** The fire state machine: which rooms burn, how fire spreads to the least
    safe neighbour of a burning room, and the countdown that hands the round
    to the arsonist once enough rooms burn at the same time. */
module FireEngine {
  import opened Common
  import opened RoomGraph
  import opened Ordering
  import opened Settings

  datatype FireState = Safe | Burning | Extinguished

  datatype Room = Room(state: FireState, burnStart: real)

  /** `order` lists the room dictionary's keys in enumeration order; `graph`
      is the adjacency graph the engine reads (rebuilt by `Initialize`). */
  datatype Engine = Engine(
    graph: Graph,
    order: seq<string>,
    rooms: map<string, Room>,
    spreadTimer: real,
    paused: bool,
    fireActive: bool,
    origin: Option<string>,
    winTimer: real,
    winTimerActive: bool,
    winTriggered: bool)

  /** What an operation announces, in order: the engine's own events, the
      bin it asks the game to set alight, and the alerts it shows. */
  datatype Event =
    | RoomIgnited(room: string)
    | RoomExtinguished(room: string)
    | AllFiresOut
    | ArsonistWin
    | BinLit(bin: string)
    | FireRelayed(room: string)
    | SpreadAlert(room: string)

  datatype Step = Step(engine: Engine, events: seq<Event>)

  /** A trash bin in the scene: its name, the room containing it (none when
      it stands outside every room) and whether it already burns. */
  datatype Bin = Bin(name: string, room: Option<string>, onFire: bool)

  /** What a spread step needs from the game: the bins in the scene, whether
      the local player has a network controller to send the fire with, and
      whether the bin-fire hook is live and feeds the ignition straight back. */
  datatype SpreadEnv = SpreadEnv(bins: seq<Bin>, canSignal: bool, relay: bool)

  ghost predicate Valid(e: Engine) {
    && RoomGraph.Valid(e.graph)
    && NoDups(e.order)
    && (forall k :: k in e.rooms <==> k in e.order)
  }

  /** A fresh engine for a new scene: no rooms yet, over the graph left by
      the previous round. */
  function Fresh(g: Graph): (e: Engine)
    requires RoomGraph.Valid(g)
    ensures Valid(e)
    ensures e.rooms == map[] && !e.fireActive && !e.paused && !e.winTriggered
  {
    Engine(g, [], map[], 0.0, false, false, None, 0.0, false, false)
  }

  predicate IsBurning(rooms: map<string, Room>, k: string) {
    k in rooms && rooms[k].state == Burning
  }

  predicate IsSafe(rooms: map<string, Room>, k: string) {
    k in rooms && rooms[k].state == Safe
  }

  ghost function BurningSet(e: Engine): set<string> {
    set k | k in e.rooms && e.rooms[k].state == Burning
  }

  /** The state of a room; a room the engine does not know reads as Safe. */
  function GetRoomState(e: Engine, room: string): (s: FireState)
    ensures room !in e.rooms ==> s == Safe
    ensures s == Burning <==> IsBurning(e.rooms, room)
  {
    if room in e.rooms then e.rooms[room].state else Safe
  }

  function CountBurning(order: seq<string>, rooms: map<string, Room>): (c: nat)
    ensures c <= |order|
    ensures c == 0 <==> forall i :: 0 <= i < |order| ==> !IsBurning(rooms, order[i])
  {
    if |order| == 0 then 0
    else (if IsBurning(rooms, order[0]) then 1 else 0) + CountBurning(order[1..], rooms)
  }

  function BurningRoomCount(e: Engine): nat {
    CountBurning(e.order, e.rooms)
  }

  function FilterBurning(order: seq<string>, rooms: map<string, Room>): (r: seq<string>)
    ensures forall x :: x in r <==> x in order && IsBurning(rooms, x)
    ensures |r| == CountBurning(order, rooms)
    ensures NoDups(order) ==> NoDups(r)
  {
    if |order| == 0 then []
    else
      var rest := FilterBurning(order[1..], rooms);
      assert order == [order[0]] + order[1..];
      NoDupsCons(order[0], order[1..]);
      if IsBurning(rooms, order[0]) then
        NoDupsCons(order[0], rest);
        [order[0]] + rest
      else rest
  }

  /** The burning rooms, in enumeration order. */
  function GetBurningRooms(e: Engine): (r: seq<string>)
    requires Valid(e)
    ensures forall x :: x in r <==> IsBurning(e.rooms, x)
    ensures NoDups(r)
  {
    FilterBurning(e.order, e.rooms)
  }

  /** The burning count is the number of distinct burning rooms, and the
      burning-room list has that length. */
  lemma BurningCountIsCardinality(e: Engine)
    requires Valid(e)
    ensures BurningRoomCount(e) == |BurningSet(e)| == |GetBurningRooms(e)|
  {
    var r := GetBurningRooms(e);
    NoDupsCardinality(r);
    assert (set x | x in r) == BurningSet(e);
  }

  /** Rebuilds the graph and resets every room to Safe; the origin room of
      the previous fire is kept. */
  function Initialize(e: Engine, src: RoomSource): (r: Engine)
    ensures Valid(r)
    ensures r.graph == RoomGraph.Initialize(src)
    ensures forall k :: k in r.rooms <==> k in GetAllRooms(r.graph)
    ensures forall k :: k in r.rooms ==> r.rooms[k].state == Safe
    ensures !r.fireActive && !r.paused && !r.winTimerActive && !r.winTriggered
    ensures r.spreadTimer == 0.0 && r.winTimer == 0.0
    ensures r.origin == e.origin
  {
    var g := RoomGraph.Initialize(src);
    Engine(g, g.keys, map k | k in g.adj :: Room(Safe, 0.0), 0.0, false, false, e.origin, 0.0, false, false)
  }

  /** Sets a known, non-burning room alight at time `now`. The first
      ignition of an episode records the origin. Unknown and burning rooms
      are left alone, silently. */
  function IgniteRoom(e: Engine, room: string, now: real): (r: Step)
    requires Valid(e)
    ensures Valid(r.engine)
    ensures room !in e.rooms || e.rooms[room].state == Burning ==> r == Step(e, [])
    ensures room in e.rooms && e.rooms[room].state != Burning ==>
      && r.events == [RoomIgnited(room)]
      && r.engine.rooms == e.rooms[room := Room(Burning, now)]
      && r.engine.fireActive
      && r.engine.origin == (if e.fireActive then e.origin else Some(room))
      && r.engine.spreadTimer == 0.0
      && r.engine == e.(rooms := r.engine.rooms, fireActive := true,
                        origin := r.engine.origin, spreadTimer := 0.0)
  {
    if room !in e.rooms || e.rooms[room].state == Burning then Step(e, [])
    else
      var e1 := e.(rooms := e.rooms[room := Room(Burning, now)],
                   fireActive := true,
                   origin := if e.fireActive then e.origin else Some(room),
                   spreadTimer := 0.0);
      Step(e1, [RoomIgnited(room)])
  }

  /** Igniting twice is igniting once. */
  lemma IgniteIdempotent(e: Engine, room: string, now: real, later: real)
    requires Valid(e)
    ensures IgniteRoom(IgniteRoom(e, room, now).engine, room, later) ==
            Step(IgniteRoom(e, room, now).engine, [])
  {
  }

  /** Igniting a room that was not burning adds exactly one burning room. */
  lemma IgniteAddsOne(e: Engine, room: string, now: real)
    requires Valid(e)
    requires room in e.rooms && e.rooms[room].state != Burning
    ensures BurningRoomCount(IgniteRoom(e, room, now).engine) == BurningRoomCount(e) + 1
  {
    var r := IgniteRoom(e, room, now).engine;
    BurningCountIsCardinality(e);
    BurningCountIsCardinality(r);
    assert BurningSet(r) == BurningSet(e) + {room};
  }

  /** A spread candidate: a Safe room next to some burning room. */
  ghost predicate IsCandidate(e: Engine, x: string) {
    IsSafe(e.rooms, x) && exists b :: IsBurning(e.rooms, b) && Adjacent(e.graph, b, x)
  }

  /** Appends, in list order, each Safe room of `ns` not yet collected. */
  function AddSafe(rooms: map<string, Room>, acc: seq<string>, ns: seq<string>): (r: seq<string>)
    ensures forall x :: x in r <==> x in acc || (x in ns && IsSafe(rooms, x))
    ensures NoDups(acc) ==> NoDups(r)
    decreases |ns|
  {
    if |ns| == 0 then acc
    else
      assert ns == [ns[0]] + ns[1..];
      var acc1 := if IsSafe(rooms, ns[0]) && ns[0] !in acc then acc + [ns[0]] else acc;
      assert NoDups(acc) ==> NoDups(acc1);
      AddSafe(rooms, acc1, ns[1..])
  }

  /** Walks the rooms in order and collects the Safe neighbours of the
      burning ones. */
  function Collect(g: Graph, rooms: map<string, Room>, order: seq<string>, acc: seq<string>): (r: seq<string>)
    requires WellFormed(g)
    ensures NoDups(acc) ==> NoDups(r)
    decreases |order|
  {
    if |order| == 0 then acc
    else
      var acc1 := if IsBurning(rooms, order[0]) then AddSafe(rooms, acc, GetAdjacentRooms(g, order[0])) else acc;
      Collect(g, rooms, order[1..], acc1)
  }

  lemma {:induction false} CollectMembers(g: Graph, rooms: map<string, Room>, order: seq<string>, acc: seq<string>, x: string)
    requires WellFormed(g)
    ensures x in Collect(g, rooms, order, acc) <==>
      x in acc || (IsSafe(rooms, x) && exists i :: 0 <= i < |order| && IsBurning(rooms, order[i]) && Adjacent(g, order[i], x))
    decreases |order|
  {
    if |order| > 0 {
      var acc1 := if IsBurning(rooms, order[0]) then AddSafe(rooms, acc, GetAdjacentRooms(g, order[0])) else acc;
      CollectMembers(g, rooms, order[1..], acc1, x);
      if exists i :: 0 <= i < |order| && IsBurning(rooms, order[i]) && Adjacent(g, order[i], x) {
        var i :| 0 <= i < |order| && IsBurning(rooms, order[i]) && Adjacent(g, order[i], x);
        if i > 0 {
          assert order[1..][i - 1] == order[i];
        }
      }
      if exists i :: 0 <= i < |order| - 1 && IsBurning(rooms, order[1..][i]) && Adjacent(g, order[1..][i], x) {
        var i :| 0 <= i < |order| - 1 && IsBurning(rooms, order[1..][i]) && Adjacent(g, order[1..][i], x);
        assert order[i + 1] == order[1..][i];
      }
    }
  }

  /** The spread candidates without duplicates, in discovery order. */
  function Candidates(e: Engine): (r: seq<string>)
    requires Valid(e)
    ensures NoDups(r)
  {
    Collect(e.graph, e.rooms, e.order, [])
  }

  /** The candidate list holds exactly the Safe rooms adjacent to a burning room. */
  lemma CandidatesExact(e: Engine, x: string)
    requires Valid(e)
    ensures x in Candidates(e) <==> IsCandidate(e, x)
  {
    CollectMembers(e.graph, e.rooms, e.order, [], x);
    if IsCandidate(e, x) {
      var b :| IsBurning(e.rooms, b) && Adjacent(e.graph, b, x);
      var i :| 0 <= i < |e.order| && e.order[i] == b;
    }
  }

  /** The room a spread step targets: the first candidate once sorted under
      the string order `le`. */
  function SpreadTarget(e: Engine, le: (string, string) -> bool): (t: Option<string>)
    requires Valid(e)
    ensures t.Some? ==> t.value in Candidates(e)
    ensures t.None? <==> Candidates(e) == []
  {
    var cs := Candidates(e);
    if |cs| == 0 then None else Some(MinBy(le, cs))
  }

  /** The target is a candidate below every other candidate, and there is no
      target exactly when no Safe room borders a burning one. */
  lemma SpreadTargetIsLeastCandidate(e: Engine, le: (string, string) -> bool)
    requires Valid(e)
    requires TotalOrder(le)
    ensures SpreadTarget(e, le).None? <==> forall x :: !IsCandidate(e, x)
    ensures SpreadTarget(e, le).Some? ==>
      && IsCandidate(e, SpreadTarget(e, le).value)
      && forall x :: IsCandidate(e, x) ==> le(SpreadTarget(e, le).value, x)
  {
    var cs := Candidates(e);
    forall x
      ensures x in cs <==> IsCandidate(e, x)
    {
      CandidatesExact(e, x);
    }
    if |cs| > 0 {
      MinByIsLeast(le, cs);
    } else {
      forall x
        ensures !IsCandidate(e, x)
      {
        CandidatesExact(e, x);
      }
    }
  }

  /** The first bin not yet burning that stands in `room`. */
  function FindBin(bins: seq<Bin>, room: string): (r: Option<Bin>)
    ensures r.Some? ==> r.value in bins && !r.value.onFire && r.value.room == Some(room)
    ensures r.None? <==> forall i :: 0 <= i < |bins| ==> bins[i].onFire || bins[i].room != Some(room)
  {
    if |bins| == 0 then None
    else if !bins[0].onFire && bins[0].room == Some(room) then Some(bins[0])
    else FindBin(bins[1..], room)
  }

  /** One spread step. A target with a free bin has the bin set alight
      through the game (which, through the bin-fire hook, ignites the room
      and relays the ignition); a target without one is ignited directly. A
      spread alert follows either way; with no candidate nothing happens. */
  function SpreadFire(e: Engine, env: SpreadEnv, le: (string, string) -> bool, now: real): (r: Step)
    requires Valid(e)
    ensures Valid(r.engine)
  {
    match SpreadTarget(e, le)
    case None => Step(e, [])
    case Some(t) =>
      match FindBin(env.bins, t)
      case Some(bin) =>
        if !env.canSignal then Step(e, [SpreadAlert(t)])
        else if !env.relay then Step(e, [BinLit(bin.name), SpreadAlert(t)])
        else
          var s := IgniteRoom(e, t, now);
          Step(s.engine, [BinLit(bin.name)] + s.events + [FireRelayed(t), SpreadAlert(t)])
      case None =>
        var s := IgniteRoom(e, t, now);
        Step(s.engine, s.events + [SpreadAlert(t)])
  }

  /** Without a candidate a spread step changes nothing; otherwise a target
      with no free bin, or one lit with the hook live, is burning afterwards
      and no other room changes. */
  lemma SpreadFireEffect(e: Engine, env: SpreadEnv, le: (string, string) -> bool, now: real)
    requires Valid(e)
    requires TotalOrder(le)
    ensures (forall x :: !IsCandidate(e, x)) ==> SpreadFire(e, env, le, now) == Step(e, [])
    ensures forall t :: SpreadTarget(e, le) == Some(t) ==>
      var r := SpreadFire(e, env, le, now);
      && IsCandidate(e, t)
      && r.events[|r.events| - 1] == SpreadAlert(t)
      && (FindBin(env.bins, t).None? || (env.canSignal && env.relay) ==>
            r.engine.rooms == e.rooms[t := Room(Burning, now)] && RoomIgnited(t) in r.events)
      && (FindBin(env.bins, t).Some? && !(env.canSignal && env.relay) ==> r.engine == e)
  {
    SpreadTargetIsLeastCandidate(e, le);
  }

  /** The win countdown for one tick, run after any spread. */
  function WinStep(e: Engine, s: ArsonSettings, dt: real): (r: Step)
    requires Valid(e)
    ensures Valid(r.engine)
    ensures r.engine.rooms == e.rooms && r.engine.order == e.order
    ensures r.engine == e.(winTimer := r.engine.winTimer, winTimerActive := r.engine.winTimerActive,
                           winTriggered := r.engine.winTriggered)
  {
    if BurningRoomCount(e) >= s.roomsToWin then
      var t := (if e.winTimerActive then e.winTimer else 0.0) + dt;
      if t >= s.extinguishTime then
        Step(e.(winTimer := t, winTimerActive := false, winTriggered := true), [ArsonistWin])
      else Step(e.(winTimer := t, winTimerActive := true), [])
    else if e.winTimerActive then Step(e.(winTimerActive := false, winTimer := 0.0), [])
    else Step(e, [])
  }

  /** One frame. Nothing happens while no fire burns, while paused, or once
      the arsonist has won; otherwise the spread timer advances (spreading
      and restarting at the interval) and the win countdown runs. */
  function Update(e: Engine, s: ArsonSettings, dt: real, now: real, env: SpreadEnv,
                  le: (string, string) -> bool): (r: Step)
    requires Valid(e)
    ensures Valid(r.engine)
    ensures !e.fireActive || e.paused || e.winTriggered ==> r == Step(e, [])
  {
    if !e.fireActive || e.paused || e.winTriggered then Step(e, [])
    else
      var spread := SpreadPhase(e, s, dt, now, env, le);
      var win := WinStep(spread.engine, s, dt);
      Step(win.engine, spread.events + win.events)
  }

  /** The spread half of a frame: the spread timer advances and, at the
      interval, restarts and spreads. It leaves the countdown alone and never
      announces a win. */
  function SpreadPhase(e: Engine, s: ArsonSettings, dt: real, now: real, env: SpreadEnv,
                       le: (string, string) -> bool): (r: Step)
    requires Valid(e)
    ensures Valid(r.engine)
    ensures ArsonistWin !in r.events
    ensures r.engine.winTimer == e.winTimer && r.engine.winTimerActive == e.winTimerActive
    ensures r.engine.winTriggered == e.winTriggered
  {
    var timer := e.spreadTimer + dt;
    if timer >= s.fireSpreadInterval then
      SpreadNeverWins(e.(spreadTimer := 0.0), env, le, now);
      SpreadFrame(e.(spreadTimer := 0.0), env, le, now);
      SpreadFire(e.(spreadTimer := 0.0), env, le, now)
    else Step(e.(spreadTimer := timer), [])
  }

  /** A spread step touches only the rooms, the episode flag, the origin
      and the spread timer. */
  lemma SpreadFrame(e: Engine, env: SpreadEnv, le: (string, string) -> bool, now: real)
    requires Valid(e)
    ensures var r := SpreadFire(e, env, le, now).engine;
      && r.winTimer == e.winTimer && r.winTimerActive == e.winTimerActive
      && r.winTriggered == e.winTriggered && r.paused == e.paused
      && r.graph == e.graph && r.order == e.order
  {
    match SpreadTarget(e, le)
    case None =>
    case Some(t) =>
      var s := IgniteRoom(e, t, now).engine;
      assert s.winTimer == e.winTimer && s.winTimerActive == e.winTimerActive;
      assert s.winTriggered == e.winTriggered && s.paused == e.paused;
      assert s.graph == e.graph && s.order == e.order;
  }

  /** The spread events never announce a win. */
  lemma SpreadNeverWins(e: Engine, env: SpreadEnv, le: (string, string) -> bool, now: real)
    requires Valid(e)
    ensures ArsonistWin !in SpreadFire(e, env, le, now).events
  {
  }

  /** The countdown for one tick runs exactly while the count is at or above
      the threshold and the round is not yet won, and announces the win on
      the tick that sets the flag. */
  lemma WinStepCountdown(e: Engine, s: ArsonSettings, dt: real)
    requires Valid(e)
    requires !e.winTriggered
    ensures var r := WinStep(e, s, dt);
      && (r.engine.winTimerActive <==> BurningRoomCount(r.engine) >= s.roomsToWin && !r.engine.winTriggered)
      && (BurningRoomCount(r.engine) < s.roomsToWin ==> !r.engine.winTriggered)
      && (e.winTimerActive && BurningRoomCount(r.engine) < s.roomsToWin ==> r.engine.winTimer == 0.0)
      && (r.events == [ArsonistWin] <==> r.engine.winTriggered)
      && (r.events == [] <==> !r.engine.winTriggered)
  {
  }

  /** After an active frame the countdown runs exactly while the burning
      count is at or above the threshold and the round is not yet won; the
      win is announced at most once, on the frame that sets the win flag. */
  lemma UpdateWinCountdown(e: Engine, s: ArsonSettings, dt: real, now: real, env: SpreadEnv,
                           le: (string, string) -> bool)
    requires Valid(e)
    requires e.fireActive && !e.paused && !e.winTriggered
    ensures var r := Update(e, s, dt, now, env, le).engine;
      r.winTimerActive <==> BurningRoomCount(r) >= s.roomsToWin && !r.winTriggered
    ensures var r := Update(e, s, dt, now, env, le).engine;
      BurningRoomCount(r) < s.roomsToWin ==> !r.winTriggered && (e.winTimerActive ==> r.winTimer == 0.0)
    ensures var st := Update(e, s, dt, now, env, le);
      (ArsonistWin in st.events <==> st.engine.winTriggered) &&
      multiset(st.events)[ArsonistWin] <= 1
  {
    var spread := SpreadPhase(e, s, dt, now, env, le);
    var win := WinStep(spread.engine, s, dt);
    WinStepCountdown(spread.engine, s, dt);
    var st := Step(win.engine, spread.events + win.events);
    assert Update(e, s, dt, now, env, le) == st;
    assert multiset(st.events) == multiset(spread.events) + multiset(win.events);
  }

  /** The countdown accumulates the frame time, starting from zero on the
      frame the threshold is first reached. */
  lemma UpdateWinTimerAccumulates(e: Engine, s: ArsonSettings, dt: real, now: real, env: SpreadEnv,
                                  le: (string, string) -> bool)
    requires Valid(e)
    requires e.fireActive && !e.paused && !e.winTriggered
    ensures var r := Update(e, s, dt, now, env, le).engine;
      BurningRoomCount(r) >= s.roomsToWin ==>
        r.winTimer == (if e.winTimerActive then e.winTimer else 0.0) + dt
  {
  }

  /** The spread timer restarts when it reaches the interval and otherwise
      accumulates the frame time. */
  lemma UpdateSpreadTimer(e: Engine, s: ArsonSettings, dt: real, now: real, env: SpreadEnv,
                          le: (string, string) -> bool)
    requires Valid(e)
    requires e.fireActive && !e.paused && !e.winTriggered
    ensures var r := Update(e, s, dt, now, env, le).engine;
      r.spreadTimer == (if e.spreadTimer + dt >= s.fireSpreadInterval then 0.0 else e.spreadTimer + dt)
  {
  }

  /** A frame that brings the spread timer to the interval performs one
      spread step (its room changes and its announcements come first); a
      shorter frame leaves every room as it was and can announce nothing but
      the win. */
  lemma UpdateSpreads(e: Engine, s: ArsonSettings, dt: real, now: real, env: SpreadEnv,
                      le: (string, string) -> bool)
    requires Valid(e)
    requires e.fireActive && !e.paused && !e.winTriggered
    ensures e.spreadTimer + dt >= s.fireSpreadInterval ==>
      var r := Update(e, s, dt, now, env, le);
      var sp := SpreadFire(e.(spreadTimer := 0.0), env, le, now);
      && r.engine.rooms == sp.engine.rooms
      && |sp.events| <= |r.events| && r.events[..|sp.events|] == sp.events
    ensures e.spreadTimer + dt < s.fireSpreadInterval ==>
      var r := Update(e, s, dt, now, env, le);
      && r.engine.rooms == e.rooms
      && forall ev :: ev in r.events ==> ev == ArsonistWin
  {
  }

  /** Once won, the engine never moves again under `Update`. */
  lemma WonIsFinal(e: Engine, s: ArsonSettings, dt: real, now: real, env: SpreadEnv,
                   le: (string, string) -> bool)
    requires Valid(e)
    requires e.winTriggered
    ensures Update(e, s, dt, now, env, le) == Step(e, [])
  {
  }

  function AllSafe(rooms: map<string, Room>): (r: map<string, Room>)
    ensures r.Keys == rooms.Keys
    ensures forall k :: k in r ==> r[k] == rooms[k].(state := Safe)
  {
    map k | k in rooms :: rooms[k].(state := Safe)
  }

  /** Puts out a burning room; any other room is left alone. Putting out the
      last burning room ends the episode, stops the countdown, announces
      that all fires are out and turns every room back to Safe. */
  function ExtinguishRoom(e: Engine, room: string): (r: Step)
    requires Valid(e)
    ensures Valid(r.engine)
    ensures !IsBurning(e.rooms, room) ==> r == Step(e, [])
  {
    if !IsBurning(e.rooms, room) then Step(e, [])
    else
      var e1 := e.(rooms := e.rooms[room := e.rooms[room].(state := Extinguished)]);
      if BurningRoomCount(e1) == 0 then
        Step(e1.(fireActive := false, winTimerActive := false, winTimer := 0.0, rooms := AllSafe(e1.rooms)),
             [RoomExtinguished(room), AllFiresOut])
      else Step(e1, [RoomExtinguished(room)])
  }

  /** Extinguishing the only burning room turns every room Safe, ends the
      episode, stops the countdown and announces the all-clear once;
      extinguishing one of several only marks that room Extinguished. */
  lemma ExtinguishLastRoom(e: Engine, room: string)
    requires Valid(e)
    requires IsBurning(e.rooms, room)
    ensures var r := ExtinguishRoom(e, room);
      BurningRoomCount(e) == 1 ==>
        && (forall k :: k in r.engine.rooms <==> k in e.rooms)
        && (forall k :: k in r.engine.rooms ==> r.engine.rooms[k].state == Safe)
        && !r.engine.fireActive && !r.engine.winTimerActive && r.engine.winTimer == 0.0
        && r.events == [RoomExtinguished(room), AllFiresOut]
    ensures var r := ExtinguishRoom(e, room);
      BurningRoomCount(e) > 1 ==>
        && r.engine == e.(rooms := e.rooms[room := e.rooms[room].(state := Extinguished)])
        && r.events == [RoomExtinguished(room)]
        && BurningRoomCount(r.engine) == BurningRoomCount(e) - 1
  {
    var e1 := e.(rooms := e.rooms[room := e.rooms[room].(state := Extinguished)]);
    BurningCountIsCardinality(e);
    BurningCountIsCardinality(e1);
    assert BurningSet(e) == BurningSet(e1) + {room};
  }

  /** Puts out every fire at once (the arsonist was voted out): every room is
      Safe, the episode and countdown end and the all-clear is announced. The
      win flag and spread timer are untouched. */
  function ExtinguishAll(e: Engine): (r: Step)
    requires Valid(e)
    ensures Valid(r.engine)
    ensures r.events == [AllFiresOut]
    ensures forall k :: k in r.engine.rooms <==> k in e.rooms
    ensures forall k :: k in r.engine.rooms ==> r.engine.rooms[k].state == Safe
    ensures BurningRoomCount(r.engine) == 0
    ensures !r.engine.fireActive && !r.engine.winTimerActive && r.engine.winTimer == 0.0
    ensures r.engine.winTriggered == e.winTriggered && r.engine.spreadTimer == e.spreadTimer
  {
    Step(e.(rooms := AllSafe(e.rooms), fireActive := false, winTimerActive := false, winTimer := 0.0),
         [AllFiresOut])
  }

  function PauseSpread(e: Engine): (r: Engine)
    ensures r.paused && r == e.(paused := r.paused)
  {
    e.(paused := true)
  }

  function ResumeSpread(e: Engine): (r: Engine)
    ensures !r.paused && r == e.(paused := r.paused)
  {
    e.(paused := false)
  }

  /** A paused engine is frozen, and resuming restores it exactly. */
  lemma PausedIsFrozen(e: Engine, s: ArsonSettings, dt: real, now: real, env: SpreadEnv,
                       le: (string, string) -> bool)
    requires Valid(e)
    ensures Update(PauseSpread(e), s, dt, now, env, le) == Step(PauseSpread(e), [])
    ensures !e.paused ==> ResumeSpread(PauseSpread(e)) == e
  {
  }
}
