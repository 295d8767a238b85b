/** The supply closet station (arson task 2): the arsonist pockets the
    lighter fluid. */
module StealFluidTask {
  import opened Common
  import opened Inventory
  import opened Interaction

  const Duration: real := 4.0

  datatype Closet = Closet(id: string, use: Use)

  /** `Interaction.Start` applied to this station's use state; every
      station class repeats the same method. */
  function StartInteraction(c: Closet, player: string): (r: Closet)
    ensures c.use.busy ==> r == c
    ensures !c.use.busy ==> r.use == Use(true, 0.0, Some(player))
    ensures r == c.(use := r.use)
  {
    c.(use := Start(c.use, player))
  }

  /** The arsonist gets the lighter fluid and then completes task 2; anyone
      else changes nothing. */
  function CompleteInteraction(c: Closet, user: Option<string>, w: World, now: real, cooldown: real)
    : (r: Done<Closet>)
    ensures r.station == c
    ensures !ArsonistUser(w, user) ==> r == Done(c, w, false)
    ensures ArsonistUser(w, user) ==>
      && HasItem(r.world.inv, user.value, LighterFluid)
      && (forall q, i :: q != user.value || i != LighterFluid ==> (HasItem(r.world.inv, q, i) <==> HasItem(w.inv, q, i)))
      && (r.world, r.broadcast) == ReportTask(w.(inv := AddItem(w.inv, user.value, LighterFluid)), user.value, 2, None, now, cooldown)
  {
    if ArsonistUser(w, user) then
      var (w1, b) := ReportTask(w.(inv := AddItem(w.inv, user.value, LighterFluid)), user.value, 2, None, now, cooldown);
      Done(c, w1, b)
    else Done(c, w, false)
  }

  function Update(c: Closet, dt: real, w: World, now: real, cooldown: real): (r: Done<Closet>)
    ensures !c.use.busy || c.use.timer + dt < Duration ==> r.world == w
    ensures c.use.busy && c.use.timer + dt >= Duration ==> !r.station.use.busy && r.station.use.user.None?
    ensures !ArsonistUser(w, c.use.user) ==> r.world == w
  {
    var a := Advance(c.use, dt, Duration);
    if a.completed then CompleteInteraction(c.(use := a.use), a.usedBy, w, now, cooldown)
    else Done(c.(use := a.use), w, false)
  }
}
