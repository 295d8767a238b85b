/** What the five task stations share: a busy flag, a use timer and the
    player using the station; the arsonist test; and the report of a
    finished arson task to the chain. */
module Interaction {
  import opened Common
  import opened PlayerAccess
  import opened Inventory
  import opened TaskChain
  import Delay

  datatype Use = Use(busy: bool, timer: real, user: Option<string>)

  const Idle := Use(false, 0.0, None)

  /** A station already in use ignores a second player. */
  function Start(u: Use, player: string): (r: Use)
    ensures u.busy ==> r == u
    ensures !u.busy ==> r.busy && r.timer == 0.0 && r.user == Some(player)
  {
    if u.busy then u else Use(true, 0.0, Some(player))
  }

  /** One frame of use: `completed` says the timer reached the station's
      duration this frame, which frees the station; `usedBy` is who used it. */
  datatype Advanced = Advanced(use: Use, completed: bool, usedBy: Option<string>)

  function Advance(u: Use, dt: real, duration: real): (r: Advanced)
    ensures !u.busy ==> r == Advanced(u, false, None)
    ensures u.busy ==> (r.completed <==> u.timer + dt >= duration)
    ensures r.completed ==> !r.use.busy && r.use.user.None? && r.usedBy == u.user
    ensures u.busy && !r.completed ==> r.use == u.(timer := u.timer + dt)
  {
    var t := Delay.Step(u.busy, u.timer, dt, duration);
    if t.fired then Advanced(Use(false, t.elapsed, None), true, u.user)
    else Advanced(u.(busy := t.running, timer := t.elapsed), false, None)
  }

  /** The completion flag of each of a run of frames. */
  function Completions(u: Use, dts: seq<real>, duration: real): (r: seq<bool>)
    ensures |r| == |dts|
    decreases |dts|
  {
    if |dts| == 0 then []
    else
      var a := Advance(u, dts[0], duration);
      [a.completed] + Completions(a.use, dts[1..], duration)
  }

  lemma {:induction false} CompletionsFollowDelay(u: Use, dts: seq<real>, duration: real)
    ensures Completions(u, dts, duration) == Delay.Fires(u.busy, u.timer, dts, duration)
    decreases |dts|
  {
    if |dts| > 0 {
      CompletionsFollowDelay(Advance(u, dts[0], duration).use, dts[1..], duration);
    }
  }

  /** Once started, a station completes once: at the first frame where the
      time spent reaches its duration. */
  lemma CompletesAtDuration(u: Use, player: string, dts: seq<real>, duration: real, k: int)
    requires !u.busy
    requires 0 <= k < |dts|
    ensures Completions(Start(u, player), dts, duration)[k] <==>
      Delay.Reached(0.0, dts, k, duration) && forall j :: 0 <= j < k ==> !Delay.Reached(0.0, dts, j, duration)
    ensures forall m :: k < m < |dts| && Completions(Start(u, player), dts, duration)[k] ==>
      !Completions(Start(u, player), dts, duration)[m]
  {
    CompletionsFollowDelay(Start(u, player), dts, duration);
    Delay.FiresAtThreshold(0.0, dts, k, duration);
    forall m | k < m < |dts| && Completions(Start(u, player), dts, duration)[k]
      ensures !Completions(Start(u, player), dts, duration)[m]
    {
      Delay.FiresOnce(0.0, dts, k, m, duration);
    }
  }

  /** The shared game state the stations act on. */
  datatype World = World(access: Access, chain: Chain, inv: Inv)

  /** The chain's arsonist test: a player in the arsonist set (never a
      missing user). */
  predicate ArsonistUser(w: World, user: Option<string>) {
    user.Some? && IsArsonist(w.access, user.value)
  }

  /** A station's result: the station, the world, and whether the chain
      broadcast a completion. */
  datatype Done<S> = Done(station: S, world: World, broadcast: bool)

  /** Tells the chain that `player` finished task `index`. */
  function ReportTask(w: World, player: string, index: int, bin: Option<string>, now: real, cooldown: real)
    : (r: (World, bool))
    ensures r.0 == w.(chain := OnArsonTaskCompleted(w.chain, player, index, bin, now, cooldown).chain)
    ensures r.1 == OnArsonTaskCompleted(w.chain, player, index, bin, now, cooldown).broadcast
  {
    var c := OnArsonTaskCompleted(w.chain, player, index, bin, now, cooldown);
    (w.(chain := c.chain), c.broadcast)
  }
}
