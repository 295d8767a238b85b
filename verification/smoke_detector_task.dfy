/** The smoke detector station (arson task 0): the arsonist jams it, anyone
    else only inspects it; a jammed detector tips off other players who
    come close. */
module SmokeDetectorTask {
  import opened Common
  import opened PlayerAccess
  import opened TaskChain
  import opened Interaction
  import FireNotifications

  const Duration: real := 4.0

  datatype Detector = Detector(id: string, jammed: bool, use: Use)

  /** `Interaction.Start` applied to this station's use state; every
      station class repeats the same method. */
  function StartInteraction(d: Detector, player: string): (r: Detector)
    ensures d.use.busy ==> r == d
    ensures !d.use.busy ==> r.use == Use(true, 0.0, Some(player))
    ensures r == d.(use := r.use)
  {
    d.(use := Start(d.use, player))
  }

  /** A finished interaction: the arsonist jams the detector and completes
      task 0; anyone else leaves detector and chain as they were. */
  function CompleteInteraction(d: Detector, user: Option<string>, w: World, now: real, cooldown: real)
    : (r: Done<Detector>)
    ensures !ArsonistUser(w, user) ==> r == Done(d, w, false)
    ensures ArsonistUser(w, user) ==>
      && r.station == d.(jammed := true)
      && (r.world, r.broadcast) == ReportTask(w, user.value, 0, None, now, cooldown)
  {
    if ArsonistUser(w, user) then
      var (w1, b) := ReportTask(w, user.value, 0, None, now, cooldown);
      Done(d.(jammed := true), w1, b)
    else Done(d, w, false)
  }

  /** One frame: the use timer runs, and at four seconds the interaction
      completes and the station is free again. */
  function Update(d: Detector, dt: real, w: World, now: real, cooldown: real): (r: Done<Detector>)
    ensures !d.use.busy || d.use.timer + dt < Duration ==> r.world == w && r.station.jammed == d.jammed
    ensures d.use.busy && d.use.timer + dt >= Duration ==> !r.station.use.busy && r.station.use.user.None?
    ensures r.station.jammed <==> d.jammed || (d.use.busy && d.use.timer + dt >= Duration && ArsonistUser(w, d.use.user))
    ensures r.world.access == w.access && r.world.inv == w.inv
  {
    var a := Advance(d.use, dt, Duration);
    if a.completed then CompleteInteraction(d.(use := a.use), a.usedBy, w, now, cooldown)
    else Done(d.(use := a.use), w, false)
  }

  /** A player who comes close to a jammed detector gets a clue, unless that
      player is an arsonist. */
  function OnPlayerProximity(d: Detector, access: Access, player: string): (r: Option<FireNotifications.Clue>)
    ensures r.Some? <==> d.jammed && !IsArsonist(access, player)
    ensures r.Some? ==> r.value.target == Some(player)
  {
    if !d.jammed || IsArsonist(access, player) then None
    else Some(FireNotifications.Clue("This smoke detector appears to have been tampered with...", Some(player)))
  }
}
