/** The finale (arson task 4): an arsonist with a lit cigarette, whose chain
    is at the finale, drops it into the stuffed bin. The bin's fire is
    requested from the game first; the round's ignition follows only when
    the chain accepts the finale. */
module TossCigaretteTask {
  import opened Common
  import opened PlayerAccess
  import opened TaskChain
  import StuffTrashBinTask
  import Delay

  /** The seconds between two prompts. */
  const PromptCooldown: real := 4.0

  /** `hasGameBin` says whether the game's trash bin component is present;
      `room` is the room the bin stands in, if any. */
  datatype Toss = Toss(binId: Option<string>, hasGameBin: bool, room: Option<string>,
                       promptShown: bool, promptCooldown: real)

  /** The finale may be triggered only at a stuffed linked bin, by an
      arsonist whose progress has reached the finale, while the arsonist's
      cigarette is lit. */
  predicate CanTrigger(linked: Option<StuffTrashBinTask.BinStation>, access: Access, chain: Option<Chain>,
                       player: string, cigaretteLit: bool)
  {
    && linked.Some? && linked.value.stuffed
    && IsArsonist(access, player)
    && chain.Some? && GetProgress(chain.value, player) >= 4
    && cigaretteLit
  }

  /** The prompt part of a frame. `eligible` stands for a local player for
      whom `CanTrigger` holds, `inRange` for that player being within the
      bin's interaction range. */
  datatype Frame = Frame(dt: real, eligible: bool, inRange: bool)

  datatype Prompt = Prompt(shown: bool, cooldown: real, show: bool)

  function PromptStep(shown: bool, cooldown: real, f: Frame): (r: Prompt)
    ensures r.show <==> f.eligible && f.inRange && !shown && cooldown - f.dt <= 0.0
    ensures r.show ==> r.shown && r.cooldown == PromptCooldown
    ensures !r.show ==> r.cooldown == cooldown - f.dt
    ensures !r.show ==> r.shown == (if f.eligible && !f.inRange then false else shown)
  {
    var cd := cooldown - f.dt;
    if !f.eligible then Prompt(shown, cd, false)
    else if f.inRange then
      if !shown && cd <= 0.0 then Prompt(true, PromptCooldown, true) else Prompt(shown, cd, false)
    else Prompt(false, cd, false)
  }

  /** The frame's update of the station's prompt state. */
  function Update(t: Toss, f: Frame): (r: (Toss, bool))
    ensures r.0.binId == t.binId && r.0.hasGameBin == t.hasGameBin && r.0.room == t.room
    ensures r.1 <==> PromptStep(t.promptShown, t.promptCooldown, f).show
  {
    var p := PromptStep(t.promptShown, t.promptCooldown, f);
    (t.(promptShown := p.shown, promptCooldown := p.cooldown), p.show)
  }

  /** Whether each of a run of frames shows the prompt. */
  function PromptRun(shown: bool, cooldown: real, frames: seq<Frame>): (r: seq<bool>)
    ensures |r| == |frames|
    decreases |frames|
  {
    if |frames| == 0 then []
    else
      var p := PromptStep(shown, cooldown, frames[0]);
      [p.show] + PromptRun(p.shown, p.cooldown, frames[1..])
  }

  function Dts(frames: seq<Frame>): (r: seq<real>)
    ensures |r| == |frames|
    ensures forall i :: 0 <= i < |frames| ==> r[i] == frames[i].dt
  {
    seq(|frames|, i requires 0 <= i < |frames| => frames[i].dt)
  }

  predicate Leaves(f: Frame) {
    f.eligible && !f.inRange
  }

  /** The first prompt of a run needs the cooldown to have elapsed and, when
      a prompt is already up, the player to have walked out of range. */
  lemma {:induction false} FirstPrompt(shown: bool, cooldown: real, frames: seq<Frame>, k: int)
    requires 0 <= k < |frames|
    requires PromptRun(shown, cooldown, frames)[k]
    requires forall j :: 0 <= j < k ==> !PromptRun(shown, cooldown, frames)[j]
    ensures Delay.Sum(Dts(frames)[..k + 1]) >= cooldown
    ensures shown ==> exists j :: 0 <= j < k && Leaves(frames[j])
    decreases k
  {
    var d := Dts(frames);
    var p := PromptStep(shown, cooldown, frames[0]);
    assert d[..k + 1][1..] == Dts(frames[1..])[..k];
    if k > 0 {
      assert !PromptRun(shown, cooldown, frames)[0];
      forall j | 0 <= j < k - 1
        ensures !PromptRun(p.shown, p.cooldown, frames[1..])[j]
      {
        assert PromptRun(shown, cooldown, frames)[j + 1] == PromptRun(p.shown, p.cooldown, frames[1..])[j];
      }
      assert PromptRun(shown, cooldown, frames)[k] == PromptRun(p.shown, p.cooldown, frames[1..])[k - 1];
      FirstPrompt(p.shown, p.cooldown, frames[1..], k - 1);
      if shown && !Leaves(frames[0]) {
        var j :| 0 <= j < k - 1 && Leaves(frames[1..][j]);
        assert Leaves(frames[j + 1]);
      }
    }
  }

  /** After a prompt, the next one comes no sooner than four seconds later
      and only after the player has left the bin's range. */
  lemma PromptSpacing(frames: seq<Frame>, k: int)
    requires 0 <= k < |frames|
    requires PromptRun(true, PromptCooldown, frames)[k]
    requires forall j :: 0 <= j < k ==> !PromptRun(true, PromptCooldown, frames)[j]
    ensures Delay.Sum(Dts(frames)[..k + 1]) >= PromptCooldown
    ensures exists j :: 0 <= j < k && Leaves(frames[j])
  {
    FirstPrompt(true, PromptCooldown, frames, k);
  }

  /** The finale's effects: the bin fire requested from the game, the
      chain afterwards, the room handed to the round's ignition (when the
      chain accepts), and whether the cigarette flag is cleared. */
  datatype Trigger = Trigger(chain: Option<Chain>, binFire: bool, ignite: Option<string>,
                             broadcast: bool, cigaretteCleared: bool)

  /** Drops the cigarette: nothing happens unless `CanTrigger` holds and the
      game bin, a local player and its network identity exist; otherwise
      the bin fire is requested, the chain hears of task 4 with this bin,
      the round ignites the bin's room (or "Unknown") only if the chain
      accepts, and the cigarette flag is cleared. */
  function TriggerFire(t: Toss, linked: Option<StuffTrashBinTask.BinStation>, access: Access,
                       chain: Option<Chain>, player: string, cigaretteLit: bool,
                       localPlayer: Option<string>, hasController: bool, now: real, cooldown: real)
    : (r: Trigger)
    ensures !(CanTrigger(linked, access, chain, player, cigaretteLit) && t.hasGameBin && localPlayer.Some? && hasController) ==>
      r == Trigger(chain, false, None, false, false)
    ensures CanTrigger(linked, access, chain, player, cigaretteLit) && t.hasGameBin && localPlayer.Some? && hasController ==>
      var c := OnArsonTaskCompleted(chain.value, player, 4, t.binId, now, cooldown);
      && r.binFire && r.cigaretteCleared
      && r.chain == Some(c.chain) && r.broadcast == c.broadcast
      && (r.ignite.Some? <==> c.ignite)
      && (r.ignite.Some? ==> r.ignite.value == t.room.GetOr("Unknown"))
  {
    if !CanTrigger(linked, access, chain, player, cigaretteLit) || !t.hasGameBin || localPlayer.None? || !hasController then
      Trigger(chain, false, None, false, false)
    else
      var c := OnArsonTaskCompleted(chain.value, player, 4, t.binId, now, cooldown);
      Trigger(Some(c.chain), true, if c.ignite then Some(t.room.GetOr("Unknown")) else None, c.broadcast, true)
  }

  /** A finale on a bin other than the one stuffed in task 3 still requests
      the bin's fire from the game, but the chain does not accept it and the
      round's ignition does not run. */
  lemma WrongBinStillLit(t: Toss, linked: Option<StuffTrashBinTask.BinStation>, access: Access,
                         c: Chain, player: string, now: real, cooldown: real)
    requires CanTrigger(linked, access, Some(c), player, true) && t.hasGameBin
    requires player in c.players && t.binId != c.players[player].targetBin
    ensures var r := TriggerFire(t, linked, access, Some(c), player, true, Some(player), true, now, cooldown);
      r.binFire && r.ignite.None?
  {
  }
}
