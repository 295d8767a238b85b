/** The five-step arson chain: the task table, per-player progress, the
    strict in-order completion rule with its cooldown and bin check, and the
    task lists that interleave arson entries (real ones for the arsonist,
    decoys for everyone else) with a player's normal tasks. */
module TaskChain {
  import opened Common
  import opened Text
  import opened PlayerAccess
  import opened Inventory

  datatype Location = SmokeDetector | Printer | SupplyCloset | TrashBin

  datatype Suspicion = Low | Medium | High

  datatype TaskDef = TaskDef(
    index: int,
    arsonistName: string,
    decoyName: Option<string>,    // none: the task is never given as a decoy
    location: Location,
    duration: real,
    suspicion: Suspicion,
    requiresItem: Option<string>,
    grantsItem: Option<string>,
    causesVisualChange: bool,
    isFinale: bool,
    mustTargetSameBinAsTask3: bool)

  const TaskCount := 5

  const Definitions: seq<TaskDef> := [
    TaskDef(0, "Jam the smoke detector", Some("Inspect the smoke detector"),
            SmokeDetector, 4.0, Low, None, None, false, false, false),
    TaskDef(1, "Print excessive documents", Some("Print compliance documents"),
            Printer, 5.0, Low, None, Some(PaperStack), false, false, false),
    TaskDef(2, "Steal lighter fluid from supply closet", Some("Organize the supply closet"),
            SupplyCloset, 4.0, Medium, None, Some(LighterFluid), false, false, false),
    TaskDef(3, "Stuff trash bin with printed documents", Some("Empty the recycling bin"),
            TrashBin, 3.0, Medium, Some(PaperStack), None, true, false, false),
    TaskDef(4, "Toss lit cigarette into the trash bin", None,
            TrashBin, 3.0, High, Some(LighterFluid), None, false, true, true)
  ]

  /** The table's shape: each entry sits at its own index, only the finale
      lacks a decoy, tasks 1 and 2 hand out the props that tasks 3 and 4
      consume, and the finale must hit the bin stuffed in task 3. */
  lemma DefinitionsTable()
    ensures |Definitions| == TaskCount
    ensures forall i :: 0 <= i < |Definitions| ==> Definitions[i].index == i
    ensures forall i :: 0 <= i < |Definitions| ==> (Definitions[i].decoyName.None? <==> i == 4)
    ensures Definitions[1].grantsItem == Some(PaperStack) && Definitions[2].grantsItem == Some(LighterFluid)
    ensures Definitions[3].requiresItem == Some(PaperStack) && Definitions[4].requiresItem == Some(LighterFluid)
    ensures forall i :: 0 <= i < |Definitions| ==> (Definitions[i].isFinale <==> i == 4)
    ensures Definitions[4].mustTargetSameBinAsTask3 && Definitions[3].location == Definitions[4].location == TrashBin
  {
  }

  datatype ChainState = NotStarted | InProgress | Completed | Reset

  /** `next` is the index of the next arson task the player may complete. */
  datatype PlayerState = PlayerState(isArsonist: bool, next: int, lastTime: real, targetBin: Option<string>)

  datatype Chain = Chain(players: map<string, PlayerState>, state: ChainState)

  const NewChain := Chain(map[], NotStarted)

  function FreshState(access: Access, player: string): (s: PlayerState)
    ensures s.isArsonist == IsArsonist(access, player) && s.next == 0 && s.lastTime == 0.0 && s.targetBin.None?
  {
    PlayerState(IsArsonist(access, player), 0, 0.0, None)
  }

  /** Registers (or re-registers) a player at the start of the chain, with
      the arsonist flag as it stands now. */
  function InitializePlayer(c: Chain, access: Access, player: string): (r: Chain)
    ensures r.players == c.players[player := FreshState(access, player)]
    ensures r.state == c.state
    ensures GetProgress(r, player) == if IsArsonist(access, player) then 0 else -1
  {
    c.(players := c.players[player := FreshState(access, player)])
  }

  /** The next task index of a registered arsonist; -1 for anyone else. */
  function GetProgress(c: Chain, player: string): (p: int)
    ensures p == -1 <==> player !in c.players || !c.players[player].isArsonist || c.players[player].next == -1
    ensures player in c.players && c.players[player].isArsonist ==> p == c.players[player].next
  {
    if player in c.players && c.players[player].isArsonist then c.players[player].next else -1
  }

  /** Whether the chain may act on the player's last broadcast. */
  datatype Completion = Completion(chain: Chain, ignite: bool, broadcast: bool)

  /** A completion is refused, changing nothing, for an unregistered player,
      a non-arsonist, an index other than the next one, or a completion
      inside the cooldown. */
  predicate Refused(c: Chain, player: string, taskIndex: int, now: real, cooldown: real) {
    || player !in c.players
    || !c.players[player].isArsonist
    || taskIndex != c.players[player].next
    || (c.players[player].lastTime > 0.0 && now - c.players[player].lastTime < cooldown)
  }

  /** Records one completed arson task. An accepted completion advances the
      player by one and stamps the time; task 3 remembers its bin; the
      finale succeeds (and asks for ignition) only on that same bin. */
  function OnArsonTaskCompleted(c: Chain, player: string, taskIndex: int, bin: Option<string>,
                                now: real, cooldown: real): (r: Completion)
    ensures Refused(c, player, taskIndex, now, cooldown) ==> r == Completion(c, false, false)
    ensures !Refused(c, player, taskIndex, now, cooldown) ==>
      var s := c.players[player];
      && r.chain.players.Keys == c.players.Keys
      && (forall q :: q in c.players && q != player ==> r.chain.players[q] == c.players[q])
      && r.chain.players[player].next == s.next + 1
      && r.chain.players[player].lastTime == now
      && r.chain.players[player].isArsonist
      && r.chain.players[player].targetBin == (if taskIndex == 3 && bin.Some? then bin else s.targetBin)
      && (taskIndex != 4 ==> r.broadcast && !r.ignite && r.chain.state == InProgress)
      && (taskIndex == 4 && bin == s.targetBin ==> r.broadcast && r.ignite && r.chain.state == Completed)
      && (taskIndex == 4 && bin != s.targetBin ==> !r.broadcast && !r.ignite && r.chain.state == c.state)
  {
    if Refused(c, player, taskIndex, now, cooldown) then Completion(c, false, false)
    else
      var s := c.players[player];
      var s1 := s.(next := s.next + 1, lastTime := now,
                   targetBin := if taskIndex == 3 && bin.Some? then bin else s.targetBin);
      var c1 := c.(players := c.players[player := s1]);
      if taskIndex == 4 then
        if Definitions[4].mustTargetSameBinAsTask3 && bin != s1.targetBin then Completion(c1, false, false)
        else Completion(c1.(state := Completed), true, true)
      else Completion(c1.(state := InProgress), false, true)
  }

  /** A finale on the wrong bin still uses up the finale: the player's next
      index is 5 afterwards, so no later completion of task 4 can ignite. */
  lemma FinaleMismatchIsTerminal(c: Chain, player: string, bin: Option<string>, now: real, cooldown: real,
                                 bin2: Option<string>, later: real)
    requires !Refused(c, player, 4, now, cooldown)
    requires bin != c.players[player].targetBin
    ensures var r := OnArsonTaskCompleted(c, player, 4, bin, now, cooldown);
      && GetProgress(r.chain, player) == 5
      && !OnArsonTaskCompleted(r.chain, player, 4, bin2, later, cooldown).ignite
  {
  }

  /** Only the finale on its recorded bin asks for ignition. */
  lemma IgnitionNeedsFinale(c: Chain, player: string, taskIndex: int, bin: Option<string>, now: real, cooldown: real)
    requires OnArsonTaskCompleted(c, player, taskIndex, bin, now, cooldown).ignite
    ensures taskIndex == 4 && GetProgress(c, player) == 4 && bin == c.players[player].targetBin
  {
  }

  /** One reported completion: task index, bin and time. */
  datatype Report = Report(taskIndex: int, bin: Option<string>, now: real)

  /** Feeds the reports to the chain in turn and lists the indices it
      accepted. */
  function Run(c: Chain, player: string, reports: seq<Report>, cooldown: real): (r: (Chain, seq<int>))
    decreases |reports|
  {
    if |reports| == 0 then (c, [])
    else
      var rp := reports[0];
      var step := OnArsonTaskCompleted(c, player, rp.taskIndex, rp.bin, rp.now, cooldown);
      var rest := Run(step.chain, player, reports[1..], cooldown);
      var accepted := !Refused(c, player, rp.taskIndex, rp.now, cooldown);
      (rest.0, (if accepted then [rp.taskIndex] else []) + rest.1)
  }

  /** Chain strictness: from any progress `k`, whatever is reported, the
      accepted indices are exactly k, k+1, k+2, ... in order, and the
      progress afterwards counts them. */
  lemma {:induction false} RunAcceptsInOrder(c: Chain, player: string, reports: seq<Report>, cooldown: real)
    requires player in c.players && c.players[player].isArsonist
    ensures var r := Run(c, player, reports, cooldown);
      && player in r.0.players && r.0.players[player].isArsonist
      && GetProgress(r.0, player) == GetProgress(c, player) + |r.1|
      && forall k :: 0 <= k < |r.1| ==> r.1[k] == GetProgress(c, player) + k
    decreases |reports|
  {
    if |reports| > 0 {
      var rp := reports[0];
      var step := OnArsonTaskCompleted(c, player, rp.taskIndex, rp.bin, rp.now, cooldown);
      RunAcceptsInOrder(step.chain, player, reports[1..], cooldown);
    }
  }

  /** A freshly registered arsonist reaches the finale only through tasks
      0 to 3, each accepted once, in order. */
  lemma FinaleOnlyAfterFourSteps(c: Chain, access: Access, player: string, reports: seq<Report>, cooldown: real)
    requires IsArsonist(access, player)
    ensures var r := Run(InitializePlayer(c, access, player), player, reports, cooldown);
      GetProgress(r.0, player) >= 4 ==> |r.1| >= 4 && r.1[..4] == [0, 1, 2, 3]
  {
    var c0 := InitializePlayer(c, access, player);
    RunAcceptsInOrder(c0, player, reports, cooldown);
  }

  /** Puts a registered player back at the start of the chain; an unknown
      player is ignored. */
  function ResetChain(c: Chain, player: string): (r: Chain)
    ensures player !in c.players ==> r == c
    ensures player in c.players ==>
      && r.players == c.players[player := c.players[player].(next := 0, lastTime := 0.0, targetBin := None)]
      && r.state == Reset
  {
    if player in c.players then
      Chain(c.players[player := c.players[player].(next := 0, lastTime := 0.0, targetBin := None)], Reset)
    else c
  }

  /** An arson entry of a generated task list. */
  datatype ArsonEntry = ArsonEntry(
    taskId: string,
    displayName: Option<string>,
    location: Location,
    duration: real,
    index: int,
    isRealArson: bool,
    isMandatoryGate: bool,
    requiresItem: Option<string>,
    grantsItem: Option<string>)

  datatype Entry<T> = Normal(task: T) | Arson(arson: ArsonEntry)

  /** The entry for task `i`: the arsonist's wording and props for a
      Slacker, the decoy wording and no props (but a mandatory gate) for
      everyone else. */
  function MakeEntry(i: int, isSlacker: bool): (a: ArsonEntry)
    requires 0 <= i < TaskCount
    ensures a.index == i && a.isRealArson == isSlacker && a.isMandatoryGate == !isSlacker
    ensures a.taskId == "arson_" + IntToString(i)
    ensures a.displayName == (if isSlacker then Some(Definitions[i].arsonistName) else Definitions[i].decoyName)
    ensures a.requiresItem == (if isSlacker then Definitions[i].requiresItem else None)
    ensures a.grantsItem == (if isSlacker then Definitions[i].grantsItem else None)
    ensures a.location == Definitions[i].location && a.duration == Definitions[i].duration
  {
    var d := Definitions[i];
    ArsonEntry("arson_" + IntToString(i),
               if isSlacker then Some(d.arsonistName) else d.decoyName,
               d.location, d.duration, i, isSlacker, !isSlacker,
               if isSlacker then d.requiresItem else None,
               if isSlacker then d.grantsItem else None)
  }

  function NormalsOf<T>(s: seq<Entry<T>>): seq<T> {
    if |s| == 0 then []
    else NormalsOf(s[..|s| - 1]) + (if s[|s| - 1].Normal? then [s[|s| - 1].task] else [])
  }

  function ArsonsOf<T>(s: seq<Entry<T>>): seq<ArsonEntry> {
    if |s| == 0 then []
    else ArsonsOf(s[..|s| - 1]) + (if s[|s| - 1].Arson? then [s[|s| - 1].arson] else [])
  }

  /** The arson entries a list carries below index `k`: every index for a
      Slacker, all but the Slacker-only finale for anyone else. */
  function ExpectedArsons(k: nat, isSlacker: bool): (r: seq<ArsonEntry>)
    requires k <= TaskCount
  {
    if k == 0 then []
    else ExpectedArsons(k - 1, isSlacker) +
         (if Definitions[k - 1].decoyName.None? && !isSlacker then [] else [MakeEntry(k - 1, isSlacker)])
  }

  /** The arson entries of the two kinds of list, spelled out. */
  lemma ExpectedArsonIndices(isSlacker: bool)
    ensures |ExpectedArsons(TaskCount, isSlacker)| == if isSlacker then 5 else 4
    ensures forall k :: 0 <= k < |ExpectedArsons(TaskCount, isSlacker)| ==>
      ExpectedArsons(TaskCount, isSlacker)[k] == MakeEntry(k, isSlacker)
  {
  }

  /** Each arson entry follows exactly min(2(i+1), n) normal tasks, where i
      is its index and n the number of normal tasks. */
  ghost predicate Placed<T>(s: seq<Entry<T>>, n: int) {
    forall j :: 0 <= j < |s| && s[j].Arson? ==> |NormalsOf(s[..j])| == Min(2 * (s[j].arson.index + 1), n)
  }

  lemma AppendPlaced<T>(s: seq<Entry<T>>, e: Entry<T>, n: int)
    requires Placed(s, n)
    requires e.Arson? ==> |NormalsOf(s)| == Min(2 * (e.arson.index + 1), n)
    ensures Placed(s + [e], n)
  {
    var t := s + [e];
    forall j | 0 <= j < |t| && t[j].Arson?
      ensures |NormalsOf(t[..j])| == Min(2 * (t[j].arson.index + 1), n)
    {
      if j < |s| {
        assert t[..j] == s[..j];
      } else {
        assert t[..j] == s;
      }
    }
  }

  lemma AppendNormal<T>(s: seq<Entry<T>>, x: T)
    ensures NormalsOf(s + [Normal(x)]) == NormalsOf(s) + [x]
    ensures ArsonsOf(s + [Normal(x)]) == ArsonsOf(s)
  {
    assert (s + [Normal(x)])[..|s|] == s;
  }

  lemma AppendArson<T>(s: seq<Entry<T>>, a: ArsonEntry)
    ensures NormalsOf(s + [Arson(a)]) == NormalsOf(s)
    ensures ArsonsOf(s + [Arson(a)]) == ArsonsOf(s) + [a]
  {
    assert (s + [Arson(a)])[..|s|] == s;
  }

  /** Appends up to two normal tasks, starting at `ni`. */
  method TakeNormals<T>(mixed: seq<Entry<T>>, normals: seq<T>, ni: nat)
    returns (mixed': seq<Entry<T>>, ni': nat)
    requires ni <= |normals|
    requires NormalsOf(mixed) == normals[..ni]
    requires Placed(mixed, |normals|)
    ensures ni' == Min(ni + 2, |normals|)
    ensures NormalsOf(mixed') == normals[..ni']
    ensures ArsonsOf(mixed') == ArsonsOf(mixed)
    ensures Placed(mixed', |normals|)
  {
    mixed', ni' := mixed, ni;
    var i := 0;
    while i < 2 && ni' < |normals|
      invariant 0 <= i <= 2 && ni' == ni + i && ni' <= |normals|
      invariant NormalsOf(mixed') == normals[..ni']
      invariant ArsonsOf(mixed') == ArsonsOf(mixed)
      invariant Placed(mixed', |normals|)
    {
      AppendNormal(mixed', normals[ni']);
      AppendPlaced(mixed', Normal(normals[ni']), |normals|);
      assert normals[..ni' + 1] == normals[..ni'] + [normals[ni']];
      mixed' := mixed' + [Normal(normals[ni'])];
      ni' := ni' + 1;
      i := i + 1;
    }
  }

  /** Appends the entry for arson task `ai`, unless it is the finale and
      the list is not a Slacker's. */
  method TakeArson<T>(mixed: seq<Entry<T>>, normals: seq<T>, ni: nat, ai: nat, isSlacker: bool)
    returns (mixed': seq<Entry<T>>)
    requires ai < TaskCount
    requires ni == Min(2 * (ai + 1), |normals|)
    requires NormalsOf(mixed) == normals[..ni]
    requires ArsonsOf(mixed) == ExpectedArsons(ai, isSlacker)
    requires Placed(mixed, |normals|)
    ensures NormalsOf(mixed') == normals[..ni]
    ensures ArsonsOf(mixed') == ExpectedArsons(ai + 1, isSlacker)
    ensures Placed(mixed', |normals|)
  {
    if Definitions[ai].decoyName.None? && !isSlacker {
      return mixed;
    }
    var entry := MakeEntry(ai, isSlacker);
    AppendArson(mixed, entry);
    AppendPlaced(mixed, Arson(entry), |normals|);
    mixed' := mixed + [Arson(entry)];
  }

  /** Builds a player's mixed task list and resets the player's chain
      state: two normal tasks, then the next arson entry, repeated until
      both run out. A non-Slacker's list skips the finale. */
  method GenerateTaskList<T>(c: Chain, access: Access, player: string, isSlacker: bool, normals: seq<T>)
    returns (r: Chain, mixed: seq<Entry<T>>)
    ensures r.players == c.players[player := FreshState(access, player)] && r.state == c.state
    ensures NormalsOf(mixed) == normals
    ensures ArsonsOf(mixed) == ExpectedArsons(TaskCount, isSlacker)
    ensures Placed(mixed, |normals|)
  {
    r := c.(players := c.players[player := FreshState(access, player)]);
    mixed := [];
    var ni: nat := 0;
    var ai: nat := 0;
    while ni < |normals| || ai < TaskCount
      invariant ni <= |normals| && ai <= TaskCount
      invariant ai < TaskCount ==> ni == Min(2 * ai, |normals|)
      invariant NormalsOf(mixed) == normals[..ni]
      invariant ArsonsOf(mixed) == ExpectedArsons(ai, isSlacker)
      invariant Placed(mixed, |normals|)
      decreases |normals| - ni + TaskCount - ai
    {
      mixed, ni := TakeNormals(mixed, normals, ni);
      if ai < TaskCount {
        mixed := TakeArson(mixed, normals, ni, ai, isSlacker);
        ai := ai + 1;
      }
    }
    assert normals[..ni] == normals;
  }
}
