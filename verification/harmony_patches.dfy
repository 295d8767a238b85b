/** The game hooks that drive the mod: round start, meetings, trash-bin
    fires, task assignment, the task-queue filter and the cigarette flag.
    Every hook does nothing while Arson Mode is off. */
module HarmonyPatches {
  import opened Common
  import RoomGraph
  import PlayerAccess
  import Inventory
  import TaskChain
  import LobbyUI
  import FireEngine
  import TaskInjector
  import FireNotifications
  import opened ArsonModEntry

  /** Round start: the engine rebuilds its rooms, every per-round store is
      cleared, and the arsonist selection is scheduled. */
  function RoundStart(m: Mod, src: RoomGraph.RoomSource): (r: Mod)
    requires Valid(m)
    ensures Valid(r)
    ensures !m.active ==> r == m
    ensures m.active ==>
      && r.pending && r.selectionDelay == 0.0
      && (forall x :: !PlayerAccess.IsArsonist(r.access, x))
      && (forall p, i :: !Inventory.HasItem(r.inventory, p, i))
      && !r.lobby.injected && !r.cigaretteLit && !r.injector.pending
      && (r.engine.None? <==> m.engine.None?)
      && (m.engine.Some? ==> r.engine == Some(FireEngine.Initialize(m.engine.value, src)))
  {
    if !m.active then m
    else
      var e := if m.engine.Some? then Some(FireEngine.Initialize(m.engine.value, src)) else None;
      BeginArsonistSelection(m.(engine := e,
                                access := PlayerAccess.Reset(m.access),
                                inventory := Inventory.Reset(m.inventory),
                                lobby := LobbyUI.Reset(m.lobby),
                                cigaretteLit := false,
                                injector := TaskInjector.Reset(m.injector)))
  }

  function MeetingStart(m: Mod): (r: Mod)
    requires Valid(m)
    ensures Valid(r)
    ensures !m.active ==> r == m
    ensures m.active ==> r == OnMeetingStarted(m)
  {
    if !m.active then m else OnMeetingStarted(m)
  }

  function MeetingEnd(m: Mod, fired: Option<string>, players: seq<Player>): (r: Mod)
    requires Valid(m)
    ensures Valid(r)
    ensures !m.active ==> r == m
    ensures m.active ==> r == OnMeetingEnded(m, fired, players)
  {
    if !m.active then m else OnMeetingEnded(m, fired, players)
  }

  /** A trash bin's fire switches on or off. The room is the one holding the
      bin, or "Unknown". Lit: an ignition. Put out: the room is put out, the
      extinguished alert shows, and the all-clear follows when no room burns. */
  function BinFire(m: Mod, lit: bool, binRoom: Option<string>, f: Frame): (r: Mod)
    requires Valid(m)
    ensures Valid(r)
    ensures !m.active ==> r == m
    ensures m.active && lit ==> r == OnFireIgnited(m, binRoom.GetOr("Unknown"), f)
  {
    if !m.active then m
    else
      var room := binRoom.GetOr("Unknown");
      if lit then OnFireIgnited(m, room, f)
      else
        var e := if m.engine.Some? then Some(FireEngine.ExtinguishRoom(m.engine.value, room).engine) else None;
        var d := FireNotifications.ShowExtinguishedAlert(m.display, room);
        var d2 := if e.Some? && FireEngine.BurningRoomCount(e.value) == 0 then FireNotifications.ShowAllFiresOutAlert(d) else d;
        m.(engine := e, display := d2)
  }

  /** A bin going out puts its room out and leaves the alarm on exactly
      while some room still burns (when it was on before). */
  lemma BinOutAlarm(m: Mod, binRoom: Option<string>, f: Frame)
    requires Valid(m) && m.active && m.engine.Some?
    ensures var r := BinFire(m, false, binRoom, f);
      && r.engine == Some(FireEngine.ExtinguishRoom(m.engine.value, binRoom.GetOr("Unknown")).engine)
      && !FireEngine.IsBurning(r.engine.value.rooms, binRoom.GetOr("Unknown"))
      && (FireEngine.BurningRoomCount(r.engine.value) == 0 ==> !r.display.alarmEnabled)
      && (FireEngine.BurningRoomCount(r.engine.value) > 0 ==> r.display.alarmEnabled == m.display.alarmEnabled)
  {

  }

  /** New tasks were handed out: a local arsonist whose next arson task
      exists and is switched on gets it requested. */
  function TaskAssignment(m: Mod, local: Option<string>): (r: Mod)
    ensures r == m || r == m.(injector := TaskInjector.RequestInjection(m.injector))
    ensures r != m ==>
      && m.active && local.Some? && PlayerAccess.IsArsonist(m.access, local.value) && m.chain.Some?
      && 0 <= TaskChain.GetProgress(m.chain.value, local.value) < TaskChain.TaskCount
      && LobbyUI.IsArsonTaskEnabled(m.lobby, TaskChain.GetProgress(m.chain.value, local.value))
    ensures (m.active && local.Some? && PlayerAccess.IsArsonist(m.access, local.value) && m.chain.Some? &&
             0 <= TaskChain.GetProgress(m.chain.value, local.value) < TaskChain.TaskCount &&
             LobbyUI.IsArsonTaskEnabled(m.lobby, TaskChain.GetProgress(m.chain.value, local.value))) ==>
      r.injector.pending
  {
    if !m.active || local.None? then m
    else if !PlayerAccess.IsArsonist(m.access, local.value) then m
    else if m.chain.None? then m
    else
      var next := TaskChain.GetProgress(m.chain.value, local.value);
      if 0 <= next < TaskChain.TaskCount && LobbyUI.IsArsonTaskEnabled(m.lobby, next) then
        m.(injector := TaskInjector.RequestInjection(m.injector))
      else m
  }

  /** An entry of the game's task pool: its task's name (none for an empty
      slot) and the data it carries. */
  datatype QueueEntry = QueueEntry(task: Option<string>, data: int)

  predicate IsStartFire(x: QueueEntry) {
    x.task == Some("StartFireTask")
  }

  /** The pool without its StartFireTask entries, others in order. */
  function Keep(q: seq<QueueEntry>): (r: seq<QueueEntry>)
    ensures |r| <= |q|
  {
    if |q| == 0 then [] else (if IsStartFire(q[0]) then [] else [q[0]]) + Keep(q[1..])
  }

  /** Keeping is exactly filtering: every kept entry is one of the pool's
      non-StartFireTask entries, and each of those is kept. */
  lemma {:induction false} KeepMembers(q: seq<QueueEntry>, x: QueueEntry)
    ensures x in Keep(q) <==> x in q && !IsStartFire(x)
    decreases |q|
  {
    if |q| > 0 {
      KeepMembers(q[1..], x);
      assert x in q <==> x == q[0] || x in q[1..];
    }
  }

  /** A pool without StartFireTask entries is left as it is. */
  lemma {:induction false} KeepClean(q: seq<QueueEntry>)
    requires forall i :: 0 <= i < |q| ==> !IsStartFire(q[i])
    ensures Keep(q) == q
    decreases |q|
  {
    if |q| > 0 {
      KeepClean(q[1..]);
      assert [q[0]] + q[1..] == q;
    }
  }

  /** Filtering twice is filtering once. */
  lemma KeepIdempotent(q: seq<QueueEntry>)
    ensures Keep(Keep(q)) == Keep(q)
  {
    var k := Keep(q);
    forall i | 0 <= i < |k| ensures !IsStartFire(k[i]) {
      KeepMembers(q, k[i]);
    }
    KeepClean(k);
  }

  /** The queue filter, run before the game builds its task queue: it
      walks the pool from the back removing every StartFireTask entry. It
      does nothing while the mode is off, after the arson chain completed,
      or when there is no pool. */
  method FilterTaskQueue(active: bool, chain: Option<TaskChain.Chain>, pool: Option<seq<QueueEntry>>)
    returns (r: Option<seq<QueueEntry>>)
    ensures !active || (chain.Some? && chain.value.state == TaskChain.Completed) || pool.None? ==> r == pool
    ensures active && !(chain.Some? && chain.value.state == TaskChain.Completed) && pool.Some? ==>
      r == Some(Keep(pool.value))
  {
    if !active || (chain.Some? && chain.value.state == TaskChain.Completed) || pool.None? {
      return pool;
    }
    var q := pool.value;
    var list := q;
    var i := |q|;
    while i > 0
      invariant 0 <= i <= |q|
      invariant list == q[..i] + Keep(q[i..])
    {
      i := i - 1;
      assert q[i..] == [q[i]] + q[i + 1..];
      assert list[i] == q[i];
      if IsStartFire(list[i]) {
        list := list[..i] + list[i + 1..];
      } else {
        assert list == q[..i] + ([q[i]] + Keep(q[i + 1..]));
      }
    }
    assert q[..0] + Keep(q[0..]) == Keep(q);
    return Some(list);
  }

  /** A cigarette is smoked: the flag is raised only when the smoker is an
      arsonist and a local player exists. */
  function CigaretteSmoked(m: Mod, hasLocal: bool, smoker: Option<string>): (r: Mod)
    ensures r == m || r == m.(cigaretteLit := true)
    ensures m.active && hasLocal && PlayerAccess.IsArsonistPlayer(m.access, smoker) ==> r.cigaretteLit
    ensures !m.cigaretteLit && r.cigaretteLit ==>
      m.active && hasLocal && smoker.Some? && PlayerAccess.IsArsonist(m.access, smoker.value)
  {
    if !m.active || !hasLocal then m
    else if PlayerAccess.IsArsonistPlayer(m.access, smoker) then m.(cigaretteLit := true)
    else m
  }

  /** A round start always clears the cigarette flag, whatever was smoked. */
  lemma CigaretteUntilRoundStart(m: Mod, src: RoomGraph.RoomSource, hasLocal: bool, smoker: Option<string>)
    requires Valid(m) && m.active
    ensures !RoundStart(CigaretteSmoked(m, hasLocal, smoker), src).cigaretteLit
  {
  }
}
