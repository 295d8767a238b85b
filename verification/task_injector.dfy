/** The local arsonist's side of the chain: which arson task is current and
    which object it targets, the deferred resolution after a request, the
    shared completion step (props, chain, finale ignition), and the choice
    of fire alarm and trash bin. Unity's scene queries and room lookup are
    inputs: a scene object carries its name, the room it stands in (if
    any) and whether it is a trash bin. */
module TaskInjector {
  import opened Common
  import opened PlayerAccess
  import opened Inventory
  import opened TaskChain
  import LobbyUI
  import Delay

  datatype SceneObject = SceneObject(name: string, room: Option<string>, isBin: bool)

  /** What the scene holds when a target is looked up. */
  datatype Scene = Scene(
    printer: Option<SceneObject>,
    alarms: seq<SceneObject>,
    shelves: seq<SceneObject>,
    bins: seq<SceneObject>)

  datatype Injector = Injector(
    pending: bool,
    delay: real,
    lastIndex: int,
    alarmRoom: Option<string>,
    targetBinName: Option<string>,
    alarmIndex: int,
    taskName: Option<string>,
    target: Option<SceneObject>,
    alarmInteracting: bool,
    alarmTimer: real)

  const Initial := Injector(false, 0.0, -1, None, None, -1, None, None, false, 0.0)

  /** Seconds a request waits before the current task is resolved. */
  const InjectionDelay: real := 0.5

  function RequestInjection(inj: Injector): (r: Injector)
    ensures r.pending && r.delay == 0.0
    ensures r == inj.(pending := true, delay := 0.0)
  {
    inj.(pending := true, delay := 0.0)
  }


  /** The definition of the player's current arson task; none without a
      chain or when the progress is outside the table. */
  function GetCurrentTaskDef(chain: Option<Chain>, player: string): (r: Option<TaskDef>)
    ensures r.Some? <==> chain.Some? && 0 <= GetProgress(chain.value, player) < TaskCount
    ensures r.Some? ==> r.value == Definitions[GetProgress(chain.value, player)]
    ensures r.Some? ==> r.value.index == GetProgress(chain.value, player)
  {
    match chain
    case None => None
    case Some(c) =>
      var p := GetProgress(c, player);
      if p < 0 || p >= |Definitions| then None
      else
        DefinitionsTable();
        Some(Definitions[p])
  }

  /** The HUD name of an item id. */
  function FormatItemName(itemId: string): (r: string)
    ensures itemId == PaperStack ==> r == "printed documents"
    ensures itemId == LighterFluid ==> r == "lighter fluid"
    ensures itemId != PaperStack && itemId != LighterFluid ==> r == itemId
  {
    if itemId == PaperStack then "printed documents"
    else if itemId == LighterFluid then "lighter fluid"
    else itemId
  }

  /** `((h % n) + n) % n` with C#'s truncating `%`. */
  function AlarmIndex(h: int, n: int): (i: int)
    requires n > 0
    ensures 0 <= i < n
    ensures i == h % n
  {
    AlarmIndexIsMod(h, n);
    CsRem(CsRem(h, n) + n, n)
  }

  lemma AlarmIndexIsMod(h: int, n: int)
    requires n > 0
    ensures CsRem(CsRem(h, n) + n, n) == h % n
  {
    var r := CsRem(h, n);
    var q := Abs(h) / n;
    assert Abs(h) == q * n + Abs(h) % n;
    if h >= 0 {
      ModUnique(h, n, q, r);
      ModUnique(r + n, n, 1, r);
    } else if r == 0 {
      ModUnique(h, n, -q, 0);
      ModUnique(r + n, n, 1, 0);
    } else {
      ModUnique(h, n, -q - 1, r + n);
      ModUnique(r + n, n, 0, r + n);
    }
  }

  /** The alarm index in use: the remembered one while it is still in
      range, otherwise one derived from a fresh random hash. */
  function SelectAlarm(selected: int, h: int, n: int): (i: int)
    requires n > 0
    ensures 0 <= i < n
    ensures 0 <= selected < n ==> i == selected
  {
    if selected < 0 || selected >= n then AlarmIndex(h, n) else selected
  }

  /** The first index whose object satisfies `p`. */
  function FirstWhere(s: seq<SceneObject>, p: SceneObject -> bool): (r: Option<nat>)
    ensures r.None? <==> forall i :: 0 <= i < |s| ==> !p(s[i])
    ensures r.Some? ==> r.value < |s| && p(s[r.value]) && forall i :: 0 <= i < r.value ==> !p(s[i])
  {
    if |s| == 0 then None
    else if p(s[0]) then Some(0)
    else
      match FirstWhere(s[1..], p)
      case None => None
      case Some(i) => Some(i + 1)
  }

  /** The bin for tasks 3 and 4: the bin with the remembered name, else the
      first bin in the fire alarm's room, else the first bin; none when the
      scene has no bin. */
  function FindTrashBinTarget(bins: seq<SceneObject>, binName: Option<string>, alarmRoom: Option<string>)
    : (r: Option<SceneObject>)
    ensures r.None? <==> |bins| == 0
    ensures r.Some? ==> r.value in bins
    ensures binName.Some? && (exists i :: 0 <= i < |bins| && bins[i].name == binName.value) ==>
      r.Some? && r.value.name == binName.value
    ensures r.Some? && (binName.None? || forall i :: 0 <= i < |bins| ==> bins[i].name != binName.value) ==>
      if alarmRoom.Some? && exists i :: 0 <= i < |bins| && bins[i].room == alarmRoom then
        r.value.room == alarmRoom &&
        exists i :: 0 <= i < |bins| && bins[i] == r.value && forall j :: 0 <= j < i ==> bins[j].room != alarmRoom
      else r.value == bins[0]
  {
    if |bins| == 0 then None
    else
      var byName := if binName.Some? then FirstWhere(bins, (b: SceneObject) => b.name == binName.value) else None;
      if byName.Some? then Some(bins[byName.value])
      else
        var byRoom := if alarmRoom.Some? then FirstWhere(bins, (b: SceneObject) => b.room == alarmRoom) else None;
        if byRoom.Some? then Some(bins[byRoom.value])
        else Some(bins[0])
  }

  /** The object a task of the given location targets, with the alarm index
      it leaves behind. */
  datatype Found = Found(target: Option<SceneObject>, alarmIndex: int)

  function FindTargetObject(inj: Injector, scene: Scene, loc: Location, h: int): (r: Found)
    ensures loc != SmokeDetector ==> r.alarmIndex == inj.alarmIndex
    ensures loc == SmokeDetector && |scene.alarms| > 0 ==>
      0 <= r.alarmIndex < |scene.alarms| && r.target == Some(scene.alarms[r.alarmIndex]) &&
      (0 <= inj.alarmIndex < |scene.alarms| ==> r.alarmIndex == inj.alarmIndex)
    ensures loc == SmokeDetector && |scene.alarms| == 0 ==> r == Found(None, inj.alarmIndex)
    ensures loc == TrashBin ==> r.target == FindTrashBinTarget(scene.bins, inj.targetBinName, inj.alarmRoom)
    ensures loc == Printer ==> r.target == scene.printer
    ensures loc == SupplyCloset ==> r.target == if |scene.shelves| > 0 then Some(scene.shelves[0]) else None
  {
    match loc
    case Printer => Found(scene.printer, inj.alarmIndex)
    case TrashBin => Found(FindTrashBinTarget(scene.bins, inj.targetBinName, inj.alarmRoom), inj.alarmIndex)
    case SupplyCloset => Found(if |scene.shelves| > 0 then Some(scene.shelves[0]) else None, inj.alarmIndex)
    case SmokeDetector =>
      if |scene.alarms| == 0 then Found(None, inj.alarmIndex)
      else
        var i := SelectAlarm(inj.alarmIndex, h, |scene.alarms|);
        Found(Some(scene.alarms[i]), i)
  }

  /** Everything resolution reads besides the injector itself. */
  datatype ResolveEnv = ResolveEnv(
    localPlayer: Option<string>,
    access: Access,
    chain: Option<Chain>,
    lobby: LobbyUI.Lobby,
    scene: Scene,
    guidHash: int)

  /** Works out the local arsonist's current arson task and its target.
      Nothing happens for a missing or non-arsonist local player or a
      missing chain; a progress outside the table clears the task; the
      task resolved last time, or a task switched off in the lobby, is left
      alone. */
  function ResolveCurrentArsonTask(inj: Injector, env: ResolveEnv): (r: Injector)
    ensures env.localPlayer.None? || !IsArsonist(env.access, env.localPlayer.value) || env.chain.None? ==> r == inj
    ensures env.localPlayer.Some? && IsArsonist(env.access, env.localPlayer.value) && env.chain.Some? ==>
      var p := GetProgress(env.chain.value, env.localPlayer.value);
      && (!(0 <= p < TaskCount) ==> r == inj.(taskName := None, target := None))
      && (0 <= p < TaskCount && (p == inj.lastIndex || !LobbyUI.IsArsonTaskEnabled(env.lobby, p)) ==> r == inj)
      && (0 <= p < TaskCount && p != inj.lastIndex && LobbyUI.IsArsonTaskEnabled(env.lobby, p) ==>
            && r.taskName == Some(Definitions[p].arsonistName)
            && r.lastIndex == p
            && r.target == FindTargetObject(inj, env.scene, Definitions[p].location, env.guidHash).target
            && (Definitions[p].location == SmokeDetector && r.target.Some? ==> r.alarmRoom == r.target.value.room)
            && (Definitions[p].location != SmokeDetector ==> r.alarmRoom == inj.alarmRoom))
  {
    if env.localPlayer.None? then inj
    else
      var player := env.localPlayer.value;
      if !IsArsonist(env.access, player) || env.chain.None? then inj
      else
        var p := GetProgress(env.chain.value, player);
        if p < 0 || p >= |Definitions| then inj.(taskName := None, target := None)
        else if p == inj.lastIndex then inj
        else if !LobbyUI.IsArsonTaskEnabled(env.lobby, p) then inj
        else
          var d := Definitions[p];
          var f := FindTargetObject(inj, env.scene, d.location, env.guidHash);
          var room := if d.location == SmokeDetector && f.target.Some? then f.target.value.room else inj.alarmRoom;
          inj.(taskName := Some(d.arsonistName), target := f.target, lastIndex := p,
               alarmIndex := f.alarmIndex, alarmRoom := room)
  }

  /** The injector's frame: the pending delay and, when it elapses, one
      resolution. The alarm-interaction part of the frame is geometric and
      is not modelled. */
  function Update(inj: Injector, dt: real, env: ResolveEnv): (r: Injector)
    ensures !inj.pending ==> r == inj
    ensures inj.pending && inj.delay + dt < InjectionDelay ==> r == inj.(delay := inj.delay + dt)
    ensures inj.pending && inj.delay + dt >= InjectionDelay ==>
      r == ResolveCurrentArsonTask(inj.(pending := false, delay := inj.delay + dt), env)
  {
    var t := Delay.Step(inj.pending, inj.delay, dt, InjectionDelay);
    var i1 := inj.(pending := t.running, delay := t.elapsed);
    if t.fired then ResolveCurrentArsonTask(i1, env) else i1
  }

  /** After a request, a run of frames resolves exactly once: at the first
      frame where the accumulated delay reaches half a second. */
  lemma ResolvesOnceAfterRequest(inj: Injector, dts: seq<real>, k: int)
    requires 0 <= k < |dts|
    ensures Delay.Fires(RequestInjection(inj).pending, RequestInjection(inj).delay, dts, InjectionDelay)[k] <==>
      Delay.Reached(0.0, dts, k, InjectionDelay) && forall j :: 0 <= j < k ==> !Delay.Reached(0.0, dts, j, InjectionDelay)
    ensures forall m :: k < m < |dts| && Delay.Fires(true, 0.0, dts, InjectionDelay)[k] ==>
      !Delay.Fires(true, 0.0, dts, InjectionDelay)[m]
  {
    Delay.FiresAtThreshold(0.0, dts, k, InjectionDelay);
    forall m | k < m < |dts| && Delay.Fires(true, 0.0, dts, InjectionDelay)[k]
      ensures !Delay.Fires(true, 0.0, dts, InjectionDelay)[m]
    {
      Delay.FiresOnce(0.0, dts, k, m, InjectionDelay);
    }
  }

  /** Resolution never touches the pending request. */
  lemma ResolveKeepsRequest(inj: Injector, env: ResolveEnv)
    ensures ResolveCurrentArsonTask(inj, env).pending == inj.pending
    ensures ResolveCurrentArsonTask(inj, env).delay == inj.delay
  {
  }

  /** Forgets the current task so the next request resolves afresh. */
  function OnCurrentTaskCompleted(inj: Injector): (r: Injector)
    ensures r.lastIndex == -1 && r.taskName.None? && r.target.None?
    ensures !r.alarmInteracting && r.alarmTimer == 0.0
    ensures r.pending == inj.pending && r.alarmIndex == inj.alarmIndex
    ensures r.alarmRoom == inj.alarmRoom && r.targetBinName == inj.targetBinName
  {
    inj.(lastIndex := -1, alarmInteracting := false, alarmTimer := 0.0, taskName := None, target := None)
  }

  /** Back to the state of a new game: the next alarm is chosen afresh. */
  function Reset(inj: Injector): (r: Injector)
    ensures !r.pending && r.lastIndex == -1 && r.alarmIndex == -1
    ensures r.alarmRoom.None? && r.targetBinName.None? && r.taskName.None? && r.target.None?
  {
    Initial
  }

  /** After a reset the alarm is drawn from the new hash, whatever was
      chosen before. */
  lemma ResetRedrawsAlarm(inj: Injector, scene: Scene, h: int)
    requires |scene.alarms| > 0
    ensures FindTargetObject(Reset(inj), scene, SmokeDetector, h).alarmIndex == h % |scene.alarms|
  {
  }

  /** The result of a completed arson interaction. `fire` is the trash bin
      the finale sets alight, when it does. */
  datatype Outcome = Outcome(
    injector: Injector,
    chain: Option<Chain>,
    inventory: Inv,
    broadcast: bool,
    fire: Option<SceneObject>,
    cigaretteCleared: bool)

  /** Whether a finale can reach the bin: a target that is a trash bin and
      a local player with a network identity. */
  predicate CanTriggerFire(target: Option<SceneObject>, hasController: bool) {
    target.Some? && target.value.isBin && hasController
  }

  /** The shared completion of an arson task by `player` (whose current
      definition is `def`): the task's item is granted and its required item
      consumed before the chain is told, a trash bin task reports the
      target's name as the bin, a successful finale sets the target bin
      alight, and the per-task state is cleared whatever the chain says. */
  function CompleteTask(inj: Injector, chain: Option<Chain>, inv: Inv, player: string, def: TaskDef,
                        now: real, cooldown: real, hasController: bool): (r: Outcome)
    ensures chain.None? || !(0 <= GetProgress(chain.value, player) < TaskCount) ==>
      r == Outcome(inj, chain, inv, false, None, false)
    ensures chain.Some? && 0 <= GetProgress(chain.value, player) < TaskCount ==>
      var p := GetProgress(chain.value, player);
      var granted := if def.grantsItem.Some? then AddItem(inv, player, def.grantsItem.value) else inv;
      var bin := if def.location == TrashBin && inj.target.Some? then Some(inj.target.value.name) else None;
      var c := OnArsonTaskCompleted(chain.value, player, p, bin, now, cooldown);
      && r.inventory == (if def.requiresItem.Some? then RemoveItem(granted, player, def.requiresItem.value).0 else granted)
      && r.chain == Some(c.chain)
      && r.broadcast == c.broadcast
      && (r.fire.Some? <==> c.ignite && CanTriggerFire(inj.target, hasController))
      && (r.fire.Some? ==> r.fire == inj.target)
      && r.cigaretteCleared == r.fire.Some?
      && r.injector == OnCurrentTaskCompleted(inj.(targetBinName := if bin.Some? then bin else inj.targetBinName))
  {
    if chain.None? then Outcome(inj, chain, inv, false, None, false)
    else
      var p := GetProgress(chain.value, player);
      if p < 0 || p >= |Definitions| then Outcome(inj, chain, inv, false, None, false)
      else
        var inv1 := if def.grantsItem.Some? then AddItem(inv, player, def.grantsItem.value) else inv;
        var inv2 := if def.requiresItem.Some? then RemoveItem(inv1, player, def.requiresItem.value).0 else inv1;
        var bin := if def.location == TrashBin && inj.target.Some? then Some(inj.target.value.name) else None;
        var inj1 := if bin.Some? then inj.(targetBinName := bin) else inj;
        var c := OnArsonTaskCompleted(chain.value, player, p, bin, now, cooldown);
        var lit := c.ignite && CanTriggerFire(inj.target, hasController);
        Outcome(OnCurrentTaskCompleted(inj1), Some(c.chain), inv2, c.broadcast,
                  if lit then inj.target else None, lit)
  }

  /** A completion grants the task's prop even when the chain refuses it. */
  lemma GrantedEvenIfRefused(inj: Injector, c: Chain, inv: Inv, player: string, now: real, cooldown: real,
                             hasController: bool)
    requires GetProgress(c, player) == 1
    requires Refused(c, player, 1, now, cooldown)
    ensures var r := CompleteTask(inj, Some(c), inv, player, Definitions[1], now, cooldown, hasController);
      HasItem(r.inventory, player, PaperStack) && r.chain == Some(c) && r.fire.None?
  {
  }

  /** The shared entry of both interaction paths: the local player's current
      definition is completed, if there is one. */
  function OnInteractionComplete(inj: Injector, chain: Option<Chain>, inv: Inv, localPlayer: Option<string>,
                                 now: real, cooldown: real, hasController: bool): (r: Outcome)
    ensures localPlayer.None? || GetCurrentTaskDef(chain, localPlayer.value).None? ==>
      r == Outcome(inj, chain, inv, false, None, false)
    ensures r.fire.Some? ==> localPlayer.Some? && GetProgress(chain.value, localPlayer.value) == 4
  {
    if localPlayer.None? then Outcome(inj, chain, inv, false, None, false)
    else
      match GetCurrentTaskDef(chain, localPlayer.value)
      case None => Outcome(inj, chain, inv, false, None, false)
      case Some(def) =>
        var r := CompleteTask(inj, chain, inv, localPlayer.value, def, now, cooldown, hasController);
        if r.fire.Some? then
          IgnitionNeedsFinale(chain.value, localPlayer.value, GetProgress(chain.value, localPlayer.value),
                              if def.location == TrashBin && inj.target.Some? then Some(inj.target.value.name) else None,
                              now, cooldown);
          r
        else r
  }
}
