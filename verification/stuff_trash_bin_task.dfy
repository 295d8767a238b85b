/** The trash bin station (arson task 3): the arsonist stuffs the bin with
    the printed documents, a change other players can spot. */
module StuffTrashBinTask {
  import opened Common
  import opened Inventory
  import opened Interaction

  const Duration: real := 3.0

  datatype BinStation = BinStation(binId: Option<string>, stuffed: bool, use: Use)

  /** `Interaction.Start` applied to this station's use state; every
      station class repeats the same method. */
  function StartInteraction(b: BinStation, player: string): (r: BinStation)
    ensures b.use.busy ==> r == b
    ensures !b.use.busy ==> r.use == Use(true, 0.0, Some(player))
    ensures r == b.(use := r.use)
  {
    b.(use := Start(b.use, player))
  }

  /** The arsonist stuffs the bin, gives up the paper stack and reports
      task 3 with this bin, whether or not the chain accepts it; anyone else
      changes nothing. */
  function CompleteInteraction(b: BinStation, user: Option<string>, w: World, now: real, cooldown: real)
    : (r: Done<BinStation>)
    ensures !ArsonistUser(w, user) ==> r == Done(b, w, false)
    ensures ArsonistUser(w, user) ==>
      && r.station == b.(stuffed := true)
      && !HasItem(r.world.inv, user.value, PaperStack)
      && (forall q, i :: q != user.value || i != PaperStack ==> (HasItem(r.world.inv, q, i) <==> HasItem(w.inv, q, i)))
      && (r.world, r.broadcast) == ReportTask(w.(inv := RemoveItem(w.inv, user.value, PaperStack).0), user.value, 3, b.binId, now, cooldown)
  {
    if ArsonistUser(w, user) then
      var (w1, ok) := ReportTask(w.(inv := RemoveItem(w.inv, user.value, PaperStack).0), user.value, 3, b.binId, now, cooldown);
      Done(b.(stuffed := true), w1, ok)
    else Done(b, w, false)
  }

  function Update(b: BinStation, dt: real, w: World, now: real, cooldown: real): (r: Done<BinStation>)
    ensures !b.use.busy || b.use.timer + dt < Duration ==> r.world == w && r.station.stuffed == b.stuffed
    ensures b.use.busy && b.use.timer + dt >= Duration ==> !r.station.use.busy && r.station.use.user.None?
    ensures r.station.stuffed <==> b.stuffed || (b.use.busy && b.use.timer + dt >= Duration && ArsonistUser(w, b.use.user))
  {
    var a := Advance(b.use, dt, Duration);
    if a.completed then CompleteInteraction(b.(use := a.use), a.usedBy, w, now, cooldown)
    else Done(b.(use := a.use), w, false)
  }

  /** Puts the bin back to normal. */
  function ResetBin(b: BinStation): (r: BinStation)
    ensures !r.stuffed
    ensures r.binId == b.binId && r.use == b.use
  {
    b.(stuffed := false)
  }
}
