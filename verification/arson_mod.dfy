/** The mod's entry point: the per-scene managers, the per-frame update
    (settings poll, delayed arsonist selection, task injector, fire engine,
    proximity tracker), fire ignition routing and the meeting hooks. */
module ArsonModEntry {
  import opened Common
  import Settings
  import RoomGraph
  import PlayerAccess
  import Inventory
  import TaskChain
  import LobbyUI
  import FireEngine
  import TaskInjector
  import ProximityTracker
  import FireNotifications
  import NetworkSync

  /** Seconds the selection waits for the player list before it runs anyway. */
  const SelectionTimeout: real := 5.0

  /** The end screens the mod shows. */
  datatype Screen = ArsonistWon | ArsonistCaught(name: string)

  /** A player as the game lists it this frame. */
  datatype Player = Player(info: PlayerAccess.PlayerInfo, room: Option<string>, username: string)

  /** Everything a frame reads from the game: the time step and clock, the
      player list, the local player, the scene objects the injector looks
      up, the bins a spread can light, and the comparer, hash and random
      generator the selection uses. */
  datatype Frame = Frame(
    dt: real,
    now: real,
    players: seq<Player>,
    local: Option<PlayerAccess.PlayerInfo>,
    scene: TaskInjector.Scene,
    guidHash: int,
    spread: FireEngine.SpreadEnv,
    le: (string, string) -> bool,
    hash: string -> int,
    draw: (int, nat, nat) -> nat)

  /** The mod's state: the mode flag, the round settings, the lobby
      switches, the managers (none until a scene loads with the mode on),
      the pending selection, the static player, inventory and injector
      state, the cigarette flag, the notification display and the end
      screens shown. */
  datatype Mod = Mod(
    active: bool,
    settings: Settings.ArsonSettings,
    lobby: LobbyUI.Lobby,
    engine: Option<FireEngine.Engine>,
    chain: Option<TaskChain.Chain>,
    tracker: Option<ProximityTracker.Tracker>,
    pending: bool,
    selectionDelay: real,
    access: PlayerAccess.Access,
    inventory: Inventory.Inv,
    injector: TaskInjector.Injector,
    cigaretteLit: bool,
    display: FireNotifications.Display,
    screens: seq<Screen>)

  ghost predicate Valid(m: Mod) {
    && PlayerAccess.Valid(m.access)
    && (m.engine.Some? ==> FireEngine.Valid(m.engine.value))
  }

  /** The mod as loaded: default settings, mode off, no managers. */
  function Loaded(ui: bool): (m: Mod)
    ensures Valid(m) && !m.active && m.engine.None? && m.chain.None? && m.tracker.None?
    ensures m.settings == Settings.Defaults
  {
    Mod(false, Settings.Defaults, LobbyUI.Cleared, None, None, None, false, 0.0,
        PlayerAccess.Empty, Inventory.Empty, TaskInjector.Initial, false,
        FireNotifications.Display(ui, false, []), [])
  }

  function Infos(ps: seq<Player>): (r: seq<PlayerAccess.PlayerInfo>)
    ensures |r| == |ps| && forall i :: 0 <= i < |ps| ==> r[i] == ps[i].info
  {
    seq(|ps|, i requires 0 <= i < |ps| => ps[i].info)
  }

  function Ids(ps: seq<Player>): (r: seq<string>)
    ensures |r| == |ps| && forall i :: 0 <= i < |ps| ==> r[i] == ps[i].info.id
  {
    seq(|ps|, i requires 0 <= i < |ps| => ps[i].info.id)
  }

  function Presences(ps: seq<Player>): (r: seq<ProximityTracker.Presence>)
    ensures |r| == |ps|
    ensures forall i :: 0 <= i < |ps| ==> r[i] == ProximityTracker.Presence(ps[i].info.id, ps[i].room, ps[i].username)
  {
    seq(|ps|, i requires 0 <= i < |ps| => ProximityTracker.Presence(ps[i].info.id, ps[i].room, ps[i].username))
  }

  function LocalId(f: Frame): (r: Option<string>)
    ensures r.Some? <==> f.local.Some?
    ensures r.Some? ==> r.value == f.local.value.id
  {
    if f.local.Some? then Some(f.local.value.id) else None
  }

  /** The room graph the static adjacency holds: the last engine's, or
      none before any engine exists. */
  function SceneGraph(m: Mod): (g: RoomGraph.Graph)
    requires Valid(m)
    ensures RoomGraph.Valid(g)
  {
    if m.engine.Some? then m.engine.value.graph else RoomGraph.EmptyGraph
  }

  /** A new scene gets fresh managers, but only while the mode is on. */
  function OnSceneWasLoaded(m: Mod): (r: Mod)
    requires Valid(m)
    ensures Valid(r)
    ensures !m.active ==> r == m
    ensures m.active ==>
      && r == m.(engine := r.engine, chain := r.chain, tracker := r.tracker)
      && r.engine == Some(FireEngine.Fresh(SceneGraph(m)))
      && r.chain == Some(TaskChain.NewChain)
      && r.tracker == Some(ProximityTracker.Initial)
  {
    if !m.active then m
    else m.(engine := Some(FireEngine.Fresh(SceneGraph(m))), chain := Some(TaskChain.NewChain),
            tracker := Some(ProximityTracker.Initial))
  }

  function BeginArsonistSelection(m: Mod): (r: Mod)
    ensures r == m.(pending := true, selectionDelay := 0.0)
  {
    m.(pending := true, selectionDelay := 0.0)
  }

  /** Registers every listed player with the chain, in order. */
  function InitializeAll(c: TaskChain.Chain, a: PlayerAccess.Access, ids: seq<string>): (r: TaskChain.Chain)
    ensures r.state == c.state
    ensures forall p :: p in ids ==> p in r.players && r.players[p] == TaskChain.FreshState(a, p)
    ensures forall p :: p !in ids ==> (p in r.players <==> p in c.players)
    ensures forall p :: p !in ids && p in c.players ==> r.players[p] == c.players[p]
    decreases |ids|
  {
    if |ids| == 0 then c
    else
      assert forall p :: p in ids <==> p == ids[0] || p in ids[1..];
      InitializeAll(TaskChain.InitializePlayer(c, a, ids[0]), a, ids[1..])
  }

  /** The state after a selection and whether the frame was cut short: with
      no chain the first registration dereferences nothing and the frame's
      exception handler skips the rest of the update. */
  datatype Run = Run(mod: Mod, aborted: bool)

  /** A frame's outcome: the mod afterwards and the messages it sent. */
  datatype Tick = Tick(mod: Mod, sent: seq<NetworkSync.Message>)

  /** The selection of this frame over the listed players, with the round's
      arsonist count. */
  function Selected(m: Mod, f: Frame): (s: PlayerAccess.Selection)
    requires Valid(m)
    requires PlayerAccess.BoundedRng(f.draw)
    ensures PlayerAccess.Valid(s.access)
  {
    PlayerAccess.SelectArsonist(m.access, Infos(f.players), Some(m.settings.arsonistCount), f.le, f.hash, f.draw)
  }

  /** Registration once an arsonist exists: every current player joins the
      chain, and a local arsonist gets the first arson task requested. */
  function Register(m: Mod, f: Frame): (r: Run)
    requires Valid(m)
    ensures Valid(r.mod)
    ensures r.aborted <==> m.chain.None? && |f.players| > 0
    ensures r.aborted ==> r.mod == m
    ensures r.mod.access == m.access && r.mod.pending == m.pending
    ensures m.chain.Some? ==> r.mod.chain == Some(InitializeAll(m.chain.value, m.access, Ids(f.players)))
    ensures !r.aborted && f.local.Some? && PlayerAccess.IsArsonist(m.access, f.local.value.id) ==>
      r.mod.injector == TaskInjector.RequestInjection(m.injector)
    ensures !(f.local.Some? && PlayerAccess.IsArsonist(m.access, f.local.value.id)) ==> r.mod.injector == m.injector
  {
    if m.chain.None? && |f.players| > 0 then Run(m, true)
    else
      var m2 := if m.chain.Some? then m.(chain := Some(InitializeAll(m.chain.value, m.access, Ids(f.players)))) else m;
      if f.local.Some? && PlayerAccess.IsArsonist(m2.access, f.local.value.id) then
        Run(m2.(injector := TaskInjector.RequestInjection(m2.injector)), false)
      else Run(m2, false)
  }

  /** Chooses the arsonists. Without one (the selection found none and the
      set is empty) nobody is registered; otherwise registration follows. */
  function RunArsonistSelection(m: Mod, f: Frame): (r: Run)
    requires Valid(m)
    requires PlayerAccess.BoundedRng(f.draw)
    ensures Valid(r.mod)
    ensures r.mod.access == Selected(m, f).access && r.mod.pending == m.pending
    ensures (forall x :: !PlayerAccess.IsArsonist(Selected(m, f).access, x)) ==>
      r == Run(m.(access := Selected(m, f).access), false)
    ensures (exists x :: PlayerAccess.IsArsonist(Selected(m, f).access, x)) ==>
      r == Register(m.(access := Selected(m, f).access), f)
  {
    var sel := Selected(m, f);
    var id := if sel.arsonist.Some? then sel.arsonist else PlayerAccess.GetArsonistId(sel.access);
    var m1 := m.(access := sel.access);
    if id.None? then Run(m1, false) else Register(m1, f)
  }

  /** Every current player is registered as a fresh chain entry. */
  lemma RegistersEveryPlayer(m: Mod, f: Frame, i: int)
    requires Valid(m) && m.chain.Some?
    requires 0 <= i < |f.players|
    ensures var c := Register(m, f).mod.chain.value;
      var id := f.players[i].info.id;
      id in c.players && c.players[id] == TaskChain.FreshState(m.access, id)
  {
    assert Ids(f.players)[i] == f.players[i].info.id;
  }

  /** A fire starts in a room: the engine ignites it (an unknown room, such
      as "Unknown", changes nothing), a local Specialist gets the proximity
      clue, and everyone sees the ignition alert. */
  function OnFireIgnited(m: Mod, room: string, f: Frame): (r: Mod)
    requires Valid(m)
    ensures Valid(r)
    ensures r.display.alarmEnabled
    ensures r.engine.None? <==> m.engine.None?
    ensures m.engine.Some? ==> r.engine == Some(FireEngine.IgniteRoom(m.engine.value, room, f.now).engine)
    ensures r == m.(engine := r.engine, display := r.display)
  {
    var engine := if m.engine.Some? then Some(FireEngine.IgniteRoom(m.engine.value, room, f.now).engine) else None;
    var m1 := m.(engine := engine);
    var clue := if m1.tracker.Some? then
                  ProximityTracker.OnFireStarted(m1.tracker.value, f.local, SceneGraph(m1), room, Presences(f.players))
                else None;
    var d := if clue.Some? then FireNotifications.ShowClue(m1.display, clue.value, LocalId(f)) else m1.display;
    m1.(display := FireNotifications.ShowIgnitionAlert(d, room))
  }

  /** A room the engine does not know leaves the engine as it was. */
  lemma UnknownRoomIgnitesNothing(m: Mod, room: string, f: Frame)
    requires Valid(m)
    requires m.engine.Some? && room !in m.engine.value.rooms
    ensures OnFireIgnited(m, room, f).engine == m.engine
  {
  }

  /** One engine event reaching the game. */
  function AnnounceOne(m: Mod, ev: FireEngine.Event, f: Frame): (r: Mod)
    requires Valid(m)
    ensures Valid(r)
    ensures r.engine.None? <==> m.engine.None?
    ensures r.screens == m.screens + (if ev.ArsonistWin? then [ArsonistWon] else [])
    ensures r == m.(engine := r.engine, display := r.display, screens := r.screens)
  {
    match ev
    case FireRelayed(t) => OnFireIgnited(m, t, f)
    case SpreadAlert(t) => m.(display := FireNotifications.ShowSpreadAlert(m.display, t))
    case ArsonistWin => m.(screens := m.screens + [ArsonistWon])
    case _ => m
  }

  /** The engine's events reach the game: a relayed bin fire is handled as
      an ignition, a spread is announced, a win shows the win screen. */
  function Announce(m: Mod, events: seq<FireEngine.Event>, f: Frame): (r: Mod)
    requires Valid(m)
    ensures Valid(r)
    ensures r.engine.None? <==> m.engine.None?
    ensures |r.screens| >= |m.screens| && r.screens[..|m.screens|] == m.screens
    ensures FireEngine.ArsonistWin in events ==> ArsonistWon in r.screens[|m.screens|..]
    ensures FireEngine.ArsonistWin !in events ==> r.screens == m.screens
    ensures r == m.(engine := r.engine, display := r.display, screens := r.screens)
    decreases |events|
  {
    if |events| == 0 then m
    else
      var m1 := AnnounceOne(m, events[0], f);
      assert forall x :: x in events <==> x == events[0] || x in events[1..];
      var r := Announce(m1, events[1..], f);
      assert r.screens[..|m.screens|] == r.screens[..|m1.screens|][..|m.screens|];
      if events[0].ArsonistWin? then
        assert r.screens[|m.screens|] == m1.screens[|m.screens|];
        r
      else r
  }

  /** The pending selection for one active frame: it waits until players
      are listed or the timeout passes, and then runs once. */
  function SelectionStage(m: Mod, f: Frame): (r: Run)
    requires Valid(m)
    requires PlayerAccess.BoundedRng(f.draw)
    ensures Valid(r.mod)
    ensures !m.pending ==> r == Run(m, false)
    ensures m.pending && (|f.players| > 0 || m.selectionDelay + f.dt > SelectionTimeout) ==> !r.mod.pending
    ensures m.pending && |f.players| == 0 && m.selectionDelay + f.dt <= SelectionTimeout ==>
      r == Run(m.(selectionDelay := m.selectionDelay + f.dt), false)
  {
    if !m.pending then Run(m, false)
    else
      var delay := m.selectionDelay + f.dt;
      if |f.players| > 0 || delay > SelectionTimeout then
        RunArsonistSelection(m.(pending := false, selectionDelay := delay), f)
      else Run(m.(selectionDelay := delay), false)
  }

  /** The managers' frame: the injector, then the fire engine (whose events
      are announced), then the proximity tracker. The selection state and
      the arsonist set are not touched. */
  function ManagerStage(m: Mod, f: Frame): (r: Mod)
    requires Valid(m)
    ensures Valid(r)
    ensures r.pending == m.pending && r.selectionDelay == m.selectionDelay && r.access == m.access
    ensures r.active == m.active && r.settings == m.settings
  {
    var env := TaskInjector.ResolveEnv(LocalId(f), m.access, m.chain, m.lobby, f.scene, f.guidHash);
    var m1 := m.(injector := TaskInjector.Update(m.injector, f.dt, env));
    var m2 := if m1.engine.None? then m1
              else
                var st := FireEngine.Update(m1.engine.value, m1.settings, f.dt, f.now, f.spread, f.le);
                Announce(m1.(engine := Some(st.engine)), st.events, f);
    if m2.tracker.None? then m2
    else m2.(tracker := Some(ProximityTracker.Update(m2.tracker.value, Presences(f.players), f.dt, f.now)))
  }

  /** One frame. The lobby switches are polled first; with the mode off
      nothing else runs. Otherwise the pending selection stage runs, and
      unless it was cut short, the managers follow. */
  function OnUpdate(m: Mod, f: Frame): (r: Tick)
    requires Valid(m)
    requires PlayerAccess.BoundedRng(f.draw)
    ensures Valid(r.mod)
    ensures r.mod.active == LobbyUI.PollSettingValues(m.lobby, Some(m.settings), m.active).modeActive
  {
    var p := LobbyUI.PollSettingValues(m.lobby, Some(m.settings), m.active);
    var m1 := m.(settings := p.settings.GetOr(m.settings), active := p.modeActive);
    var sent := if p.toggled then [NetworkSync.BroadcastArsonModeToggled(p.modeActive)] else [];
    if !m1.active then Tick(m1, sent)
    else
      var run := SelectionStage(m1, f);
      Tick(if run.aborted then run.mod else ManagerStage(run.mod, f), sent)
  }

  /** A frame announces a mode change exactly when it changes the mode, at
      most once, and the peers receive the mode the frame ends in. */
  lemma ToggleAnnouncesNewMode(m: Mod, f: Frame)
    requires Valid(m)
    requires PlayerAccess.BoundedRng(f.draw)
    ensures var r := OnUpdate(m, f);
      && |r.sent| <= 1
      && (r.sent != [] <==> r.mod.active != m.active)
      && forall msg :: msg in r.sent ==>
           NetworkSync.SendMessage(msg) == [NetworkSync.ArsonModeToggledReceived(r.mod.active)]
  {
    NetworkSync.ModeToggledRoundTrip(OnUpdate(m, f).mod.active);
  }

  /** With the mode off after the poll, a frame only applies the poll. */
  lemma InactiveFrameOnlyPolls(m: Mod, f: Frame)
    requires Valid(m)
    requires PlayerAccess.BoundedRng(f.draw)
    requires !LobbyUI.PollSettingValues(m.lobby, Some(m.settings), m.active).modeActive
    ensures var p := LobbyUI.PollSettingValues(m.lobby, Some(m.settings), m.active);
      OnUpdate(m, f).mod == m.(settings := p.settings.GetOr(m.settings), active := false)
  {
  }

  /** The pending selection runs in the first active frame that lists a
      player or passes the timeout, and not before; once run it is no longer
      pending, and without a pending selection the arsonist set stays. */
  lemma PendingSelectionRunsOnce(m: Mod, f: Frame)
    requires Valid(m)
    requires PlayerAccess.BoundedRng(f.draw)
    requires LobbyUI.PollSettingValues(m.lobby, Some(m.settings), m.active).modeActive
    ensures var r := OnUpdate(m, f).mod;
      && (m.pending && (|f.players| > 0 || m.selectionDelay + f.dt > SelectionTimeout) ==> !r.pending)
      && (m.pending && |f.players| == 0 && m.selectionDelay + f.dt <= SelectionTimeout ==>
            r.pending && r.selectionDelay == m.selectionDelay + f.dt && r.access == m.access)
      && (!m.pending ==> !r.pending && r.access == m.access)
  {
    var p := LobbyUI.PollSettingValues(m.lobby, Some(m.settings), m.active);
    var m1 := m.(settings := p.settings.GetOr(m.settings), active := p.modeActive);
    assert m1.pending == m.pending && m1.selectionDelay == m.selectionDelay && m1.access == m.access;
  }

  function OnMeetingStarted(m: Mod): (r: Mod)
    requires Valid(m)
    ensures Valid(r)
    ensures m.engine.Some? ==> r.engine == Some(FireEngine.PauseSpread(m.engine.value))
    ensures r == m.(engine := r.engine)
  {
    if m.engine.Some? then m.(engine := Some(FireEngine.PauseSpread(m.engine.value))) else m
  }

  /** Meeting end resumes the spread; when the fired player is an arsonist
      every fire is put out and the caught screen names them by user name
      (or id when not listed). */
  function OnMeetingEnded(m: Mod, fired: Option<string>, players: seq<Player>): (r: Mod)
    requires Valid(m)
    ensures Valid(r)
  {
    var e := if m.engine.Some? then Some(FireEngine.ResumeSpread(m.engine.value)) else None;
    var m1 := m.(engine := e);
    if fired.Some? && PlayerAccess.IsArsonist(m1.access, fired.value) then
      var e2 := if e.Some? then Some(FireEngine.ExtinguishAll(e.value).engine) else None;
      var name := ProximityTracker.NameOf(Presences(players), fired.value);
      m1.(engine := e2, screens := m1.screens + [ArsonistCaught(name)])
    else m1
  }

  /** After a meeting the spread runs again, and every fire is out exactly
      when an arsonist was fired. */
  lemma MeetingEndOutcome(m: Mod, fired: Option<string>, players: seq<Player>)
    requires Valid(m) && m.engine.Some?
    ensures var r := OnMeetingEnded(m, fired, players);
      && r.engine.Some? && !r.engine.value.paused
      && ((fired.Some? && PlayerAccess.IsArsonist(m.access, fired.value)) ==>
            FireEngine.BurningRoomCount(r.engine.value) == 0 && |r.screens| == |m.screens| + 1)
      && (!(fired.Some? && PlayerAccess.IsArsonist(m.access, fired.value)) ==>
            r.engine == Some(FireEngine.ResumeSpread(m.engine.value)) && r.screens == m.screens)
  {
  }
}
