/** A wall-mounted fire extinguisher: picked up by one player, used on a
    burning room for the extinguish time, one charge per fire put out,
    depleted (and dropped) at zero charges, and back on the wall with full
    charges after the respawn time. */
module FireExtinguisher {
  import opened Common
  import opened Settings
  import opened FireEngine
  import NetworkSync

  datatype Extinguisher = Extinguisher(
    id: string,
    charges: int,
    pickedUp: bool,
    holder: Option<string>,
    respawnTimer: real,
    depleted: bool,
    using: bool,
    useTimer: real,
    target: Option<string>)

  /** Held exactly when there is a holder; a use has a target room; a
      depleted extinguisher is on no one and not in use. */
  predicate Valid(x: Extinguisher) {
    && (x.pickedUp <==> x.holder.Some?)
    && (x.using ==> x.target.Some?)
    && (x.depleted ==> !x.pickedUp && !x.using)
  }

  function New(id: string, s: ArsonSettings): (x: Extinguisher)
    ensures Valid(x) && x.charges == s.extinguisherCharges && !x.pickedUp && !x.depleted && !x.using
  {
    Extinguisher(id, s.extinguisherCharges, false, None, 0.0, false, false, 0.0, None)
  }

  /** The result of an operation that may tell the other clients. */
  datatype Result = Result(ext: Extinguisher, ok: bool, messages: seq<NetworkSync.Message>)

  /** A player takes the extinguisher off the wall, unless it is held,
      depleted or empty; success is broadcast. */
  function TryPickUp(x: Extinguisher, player: string): (r: Result)
    ensures !r.ok <==> x.pickedUp || x.depleted || x.charges <= 0
    ensures !r.ok ==> r == Result(x, false, [])
    ensures r.ok ==> r.ext == x.(pickedUp := true, holder := Some(player))
    ensures r.ok ==> r.messages == [NetworkSync.Message(NetworkSync.ExtinguisherPickedUp, x.id)]
    ensures Valid(x) ==> Valid(r.ext)
  {
    if x.pickedUp || x.depleted || x.charges <= 0 then Result(x, false, [])
    else Result(x.(pickedUp := true, holder := Some(player)), true,
                [NetworkSync.Message(NetworkSync.ExtinguisherPickedUp, x.id)])
  }

  /** Returns a held extinguisher to the wall; otherwise nothing happens. A
      use in progress is not stopped. */
  function Drop(x: Extinguisher): (r: Extinguisher)
    ensures !x.pickedUp ==> r == x
    ensures x.pickedUp ==> r == x.(pickedUp := false, holder := None)
    ensures Valid(x) ==> !r.pickedUp && r.holder.None?
    ensures Valid(x) ==> Valid(r)
  {
    if !x.pickedUp then x else x.(pickedUp := false, holder := None)
  }

  /** Starts spraying a room: only when held, charged, and the room burns. */
  function StartUsing(x: Extinguisher, e: Engine, room: string): (r: (Extinguisher, bool))
    ensures r.1 <==> x.pickedUp && x.charges > 0 && GetRoomState(e, room) == Burning
    ensures !r.1 ==> r.0 == x
    ensures r.1 ==> r.0 == x.(using := true, useTimer := 0.0, target := Some(room))
    ensures Valid(x) ==> Valid(r.0)
  {
    if !x.pickedUp || x.charges <= 0 then (x, false)
    else if GetRoomState(e, room) != Burning then (x, false)
    else (x.(using := true, useTimer := 0.0, target := Some(room)), true)
  }

  function StopUsing(x: Extinguisher): (r: Extinguisher)
    ensures !r.using && r.useTimer == 0.0 && r.target.None?
    ensures Valid(x) ==> Valid(r)
  {
    x.(using := false, useTimer := 0.0, target := None)
  }

  /** Picking up and dropping again leaves the extinguisher as it was on the
      wall; a refused pick-up changes nothing to drop. */
  lemma PickUpThenDrop(x: Extinguisher, player: string)
    requires Valid(x) && !x.pickedUp
    ensures Drop(TryPickUp(x, player).ext) == x
  {
  }

  /** Stopping undoes starting: a started use leaves nothing behind once
      stopped, and only a held, charged extinguisher can start. */
  lemma StartThenStop(x: Extinguisher, e: Engine, room: string)
    requires Valid(x)
    ensures StopUsing(StartUsing(x, e, room).0) == StopUsing(x)
    ensures StartUsing(x, e, room).1 ==> x.holder.Some? && !x.depleted
  {
  }

  /** The use fraction: zero when not in use. */
  function GetUseProgress(x: Extinguisher, s: ArsonSettings): (p: real)
    requires x.using ==> s.extinguishTime != 0.0
    ensures !x.using ==> p == 0.0
    ensures x.using && s.extinguishTime > 0.0 ==> (p >= 1.0 <==> x.useTimer >= s.extinguishTime)
  {
    if !x.using then 0.0 else x.useTimer / s.extinguishTime
  }

  /** The remaining fraction of charges: zero when the setting is not
      positive. */
  function GetChargeRatio(x: Extinguisher, s: ArsonSettings): (q: real)
    ensures s.extinguisherCharges <= 0 ==> q == 0.0
    ensures s.extinguisherCharges > 0 ==> q * s.extinguisherCharges as real == x.charges as real
  {
    if s.extinguisherCharges > 0 then x.charges as real / s.extinguisherCharges as real else 0.0
  }

  /** A frame's effect: the extinguisher, the fire engine, the engine's
      events and the messages broadcast. */
  datatype Tick = Tick(ext: Extinguisher, engine: Engine, events: seq<Event>, messages: seq<NetworkSync.Message>)

  /** Runs out of charges: depleted, off the player, broadcast. */
  function Deplete(x: Extinguisher): (r: (Extinguisher, NetworkSync.Message))
    requires Valid(x)
    ensures r.0.depleted && r.0.respawnTimer == 0.0 && !r.0.pickedUp && r.0.holder.None?
    ensures r.1 == NetworkSync.Message(NetworkSync.ExtinguisherDepleted, x.id)
    ensures r.0.charges == x.charges && r.0.using == x.using
  {
    (Drop(x.(depleted := true, respawnTimer := 0.0)), NetworkSync.Message(NetworkSync.ExtinguisherDepleted, x.id))
  }

  /** One frame. A depleted extinguisher only counts down to its respawn,
      which restores the full charges. One in use accumulates use time; at
      the extinguish time it puts out the target room, spends one charge,
      stops, and depletes when no charge is left. */
  function Update(x: Extinguisher, e: Engine, s: ArsonSettings, dt: real): (r: Tick)
    requires FireEngine.Valid(e) && Valid(x)
    ensures FireEngine.Valid(r.engine)
    ensures Valid(r.ext)
  {
    if x.depleted then
      var t := x.respawnTimer + dt;
      if t >= s.extinguisherRespawnTime then
        Tick(x.(respawnTimer := t, depleted := false, charges := s.extinguisherCharges), e, [],
             [NetworkSync.Message(NetworkSync.ExtinguisherRespawned, x.id)])
      else Tick(x.(respawnTimer := t), e, [], [])
    else if !x.using then Tick(x, e, [], [])
    else
      var t := x.useTimer + dt;
      if t < s.extinguishTime then Tick(x.(useTimer := t), e, [], [])
      else
        var st := if x.target.Some? then ExtinguishRoom(e, x.target.value) else Step(e, []);
        var x1 := StopUsing(x.(charges := x.charges - 1));
        if x1.charges <= 0 then
          var (x2, m) := Deplete(x1);
          Tick(x2, st.engine, st.events, [m])
        else Tick(x1, st.engine, st.events, [])
  }

  /** While depleted only the respawn timer runs; at the respawn time the
      charges are full again and the extinguisher is back. */
  lemma DepletedOnlyRespawns(x: Extinguisher, e: Engine, s: ArsonSettings, dt: real)
    requires FireEngine.Valid(e) && Valid(x)
    requires x.depleted
    ensures var r := Update(x, e, s, dt);
      && r.engine == e && r.events == []
      && r.ext.respawnTimer == x.respawnTimer + dt
      && r.ext == x.(respawnTimer := r.ext.respawnTimer, depleted := r.ext.depleted, charges := r.ext.charges)
      && (x.respawnTimer + dt >= s.extinguisherRespawnTime ==>
            !r.ext.depleted && r.ext.charges == s.extinguisherCharges &&
            r.messages == [NetworkSync.Message(NetworkSync.ExtinguisherRespawned, x.id)])
      && (x.respawnTimer + dt < s.extinguisherRespawnTime ==> r.ext == x.(respawnTimer := r.ext.respawnTimer))
  {
  }

  /** A finished use puts out the target room once and spends exactly one
      charge; at zero charges the extinguisher is depleted and dropped. */
  lemma CompletedUse(x: Extinguisher, e: Engine, s: ArsonSettings, dt: real, room: string)
    requires FireEngine.Valid(e) && Valid(x)
    requires !x.depleted && x.using && x.target == Some(room)
    requires x.useTimer + dt >= s.extinguishTime
    ensures var r := Update(x, e, s, dt);
      && (r.engine, r.events) == (ExtinguishRoom(e, room).engine, ExtinguishRoom(e, room).events)
      && r.ext.charges == x.charges - 1
      && !r.ext.using && r.ext.target.None?
      && (r.ext.charges <= 0 <==> r.ext.depleted)
      && (r.ext.depleted ==>
            (!r.ext.pickedUp && r.ext.holder.None? &&
             r.messages == [NetworkSync.Message(NetworkSync.ExtinguisherDepleted, x.id)]))
  {
  }

  /** A use that has not reached the extinguish time leaves the fire alone. */
  lemma UnfinishedUse(x: Extinguisher, e: Engine, s: ArsonSettings, dt: real)
    requires FireEngine.Valid(e) && Valid(x)
    requires !x.depleted && x.using
    requires x.useTimer + dt < s.extinguishTime
    ensures Update(x, e, s, dt) == Tick(x.(useTimer := x.useTimer + dt), e, [], [])
  {
  }
}
