/** The printer station (arson task 1): the arsonist's excessive print job
    yields the paper stack and leaves a trace in the printer's log. */
module PrintDocumentsTask {
  import opened Common
  import opened Text
  import opened Inventory
  import opened Interaction

  const Duration: real := 5.0

  /** `lastExcessiveTime` is -1 until the first excessive job. */
  datatype PrinterStation = PrinterStation(id: string, excessive: bool, lastExcessiveTime: real, use: Use)

  function NewPrinter(id: string): (p: PrinterStation)
    ensures !p.excessive && p.lastExcessiveTime == -1.0 && !p.use.busy
  {
    PrinterStation(id, false, -1.0, Idle)
  }

  /** `Interaction.Start` applied to this station's use state; every
      station class repeats the same method. */
  function StartInteraction(p: PrinterStation, player: string): (r: PrinterStation)
    ensures p.use.busy ==> r == p
    ensures !p.use.busy ==> r.use == Use(true, 0.0, Some(player))
    ensures r == p.(use := r.use)
  {
    p.(use := Start(p.use, player))
  }

  /** The arsonist's job marks the printer, stamps the time, hands out the
      paper stack and completes task 1; a decoy job changes nothing. */
  function CompleteInteraction(p: PrinterStation, user: Option<string>, w: World, now: real, cooldown: real)
    : (r: Done<PrinterStation>)
    ensures !ArsonistUser(w, user) ==> r == Done(p, w, false)
    ensures ArsonistUser(w, user) ==>
      && r.station == p.(excessive := true, lastExcessiveTime := now)
      && HasItem(r.world.inv, user.value, PaperStack)
      && (forall q, i :: q != user.value || i != PaperStack ==> (HasItem(r.world.inv, q, i) <==> HasItem(w.inv, q, i)))
      && (r.world, r.broadcast) == ReportTask(w.(inv := AddItem(w.inv, user.value, PaperStack)), user.value, 1, None, now, cooldown)
  {
    if ArsonistUser(w, user) then
      var w1 := w.(inv := AddItem(w.inv, user.value, PaperStack));
      var (w2, b) := ReportTask(w1, user.value, 1, None, now, cooldown);
      Done(p.(excessive := true, lastExcessiveTime := now), w2, b)
    else Done(p, w, false)
  }

  /** One frame: at five seconds of use the job completes. */
  function Update(p: PrinterStation, dt: real, w: World, now: real, cooldown: real): (r: Done<PrinterStation>)
    ensures !p.use.busy || p.use.timer + dt < Duration ==> r.world == w && r.station.excessive == p.excessive
    ensures p.use.busy && p.use.timer + dt >= Duration ==> !r.station.use.busy && r.station.use.user.None?
    ensures r.station.excessive <==> p.excessive || (p.use.busy && p.use.timer + dt >= Duration && ArsonistUser(w, p.use.user))
  {
    var a := Advance(p.use, dt, Duration);
    if a.completed then CompleteInteraction(p.(use := a.use), a.usedBy, w, now, cooldown)
    else Done(p.(use := a.use), w, false)
  }

  /** The log line an excessive job of `pages` pages leaves. */
  function JobEntry(pages: int): string {
    "PRINT JOB - " + IntToString(pages) + " pages"
  }

  /** The printer's log line for the clue system: none without an excessive
      job; `pages` is the random page count. */
  function GetPrintLogEntry(p: PrinterStation, pages: int): (r: Option<string>)
    ensures r.None? <==> !p.excessive
    ensures r.Some? ==> r.value == JobEntry(pages)
  {
    if !p.excessive then None else Some(JobEntry(pages))
  }
}
