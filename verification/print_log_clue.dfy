/** The printer's "recent jobs" screen: four ordinary jobs, or, after the
    excessive print, the suspicious job slipped in as the second line. */
module PrintLogClue {
  import opened Common
  import opened Text
  import opened PrintDocumentsTask

  const Header := "RECENT PRINT JOBS:"

  const NormalJobs: seq<string> := ["  DOC - 3 pages", "  DOC - 1 page", "  DOC - 7 pages", "  DOC - 2 pages"]

  /** The lines of a log, header first. */
  function LogLines(entry: Option<string>): (r: seq<string>)
    ensures |r| == 5 && r[0] == Header && r[1] == "  DOC - 3 pages"
    ensures entry.None? ==> r[1..] == NormalJobs
    ensures entry.Some? ==> r[2] == "  " + entry.value
  {
    match entry
    case None => [Header] + NormalJobs
    case Some(e) => [Header, "  DOC - 3 pages", "  " + e, "  DOC - 1 page", "  DOC - 5 pages"]
  }

  function NormalLog(): string {
    Join(LogLines(None), '\n')
  }

  function SuspiciousLog(entry: string): string {
    Join(LogLines(Some(entry)), '\n')
  }

  /** The first printer with this id, if any. */
  function FindPrinter(printers: seq<PrinterStation>, id: string): (r: Option<PrinterStation>)
    ensures r.None? <==> forall i :: 0 <= i < |printers| ==> printers[i].id != id
    ensures r.Some? ==> exists i :: 0 <= i < |printers| && printers[i] == r.value && printers[i].id == id &&
                                    forall j :: 0 <= j < i ==> printers[j].id != id
  {
    if |printers| == 0 then None
    else if printers[0].id == id then Some(printers[0])
    else
      assert forall i :: 0 < i < |printers| ==> printers[i] == printers[1..][i - 1];
      FindPrinter(printers[1..], id)
  }

  /** The log for the printer with this id; `pages` is the random page
      count the printer reports. */
  function GetPrintLogForPrinter(printers: seq<PrinterStation>, id: string, pages: int): (r: string)
    ensures FindPrinter(printers, id).None? ==> r == NormalLog()
    ensures FindPrinter(printers, id).Some? && !FindPrinter(printers, id).value.excessive ==> r == NormalLog()
    ensures FindPrinter(printers, id).Some? && FindPrinter(printers, id).value.excessive ==>
      r == SuspiciousLog(JobEntry(pages))
  {
    match FindPrinter(printers, id)
    case None => NormalLog()
    case Some(p) =>
      match GetPrintLogEntry(p, pages)
      case None => NormalLog()
      case Some(e) => SuspiciousLog(e)
  }

  lemma NumberHasNoNewline(n: int)
    ensures '\n' !in IntToString(n)
  {
    var m := if n < 0 then -n else n;
    var s := NatToString(m);
    forall i | 0 <= i < |s| ensures s[i] != '\n' {
      assert IsDigit(s[i]);
    }
    if n < 0 {
      assert IntToString(n) == "-" + s;
    }
  }

  /** No line of a log holds a line break, so reading it back line by
      line gives the lines. */
  lemma LinesRoundTrip(entry: Option<string>)
    requires entry.Some? ==> '\n' !in entry.value
    ensures Split(Join(LogLines(entry), '\n'), '\n') == LogLines(entry)
  {
    var lines := LogLines(entry);
    forall k | 0 <= k < |lines| ensures '\n' !in lines[k] {
      if k == 2 && entry.Some? {
        assert lines[k] == "  " + entry.value;
      }
    }
    SplitJoin(lines, '\n');
  }

  /** Read back line by line, a log is the header and four jobs, the first
      of them the 3-page one; the excessive job, when there is one, is the
      line after it. */
  lemma LogShape(printers: seq<PrinterStation>, id: string, pages: int)
    ensures var f := FindPrinter(printers, id);
      var job := JobEntry(pages);
      Split(GetPrintLogForPrinter(printers, id, pages), '\n') ==
        LogLines(if f.Some? && f.value.excessive then Some(job) else None)
  {
    var f := FindPrinter(printers, id);
    var job := JobEntry(pages);
    ExcessiveEntryIsOneLine(pages);
    var entry := if f.Some? && f.value.excessive then Some(job) else None;
    LogIsLines(printers, id, pages);
    LinesRoundTrip(entry);
  }

  /** The printer's line for an excessive job is one non-empty line. */
  lemma ExcessiveEntryIsOneLine(pages: int)
    ensures '\n' !in JobEntry(pages) && |JobEntry(pages)| > 0 && JobEntry(pages)[0] == 'P'
  {
    NumberHasNoNewline(pages);
  }

  /** The third line shows the excessive job exactly when the first printer
      with this id printed one. */
  lemma SuspiciousLineIffExcessive(printers: seq<PrinterStation>, id: string, pages: int)
    ensures var lines := Split(GetPrintLogForPrinter(printers, id, pages), '\n');
      && |lines| == 5 && lines[0] == Header && lines[1] == "  DOC - 3 pages"
      && (lines[2] == "  " + JobEntry(pages) <==>
            FindPrinter(printers, id).Some? && FindPrinter(printers, id).value.excessive)
  {
    var f := FindPrinter(printers, id);
    var job := JobEntry(pages);
    ExcessiveEntryIsOneLine(pages);
    LogShape(printers, id, pages);
    if f.Some? && f.value.excessive {
      assert Split(GetPrintLogForPrinter(printers, id, pages), '\n') == LogLines(Some(job));
    } else {
      assert Split(GetPrintLogForPrinter(printers, id, pages), '\n') == LogLines(None);
      JobLineDiffers(job);
    }
  }

  lemma LogIsLines(printers: seq<PrinterStation>, id: string, pages: int)
    ensures var f := FindPrinter(printers, id);
      var job := JobEntry(pages);
      GetPrintLogForPrinter(printers, id, pages) ==
        Join(LogLines(if f.Some? && f.value.excessive then Some(job) else None), '\n')
  {
  }

  lemma JobLineDiffers(job: string)
    requires |job| > 0 && job[0] == 'P'
    ensures LogLines(None)[2] != "  " + job
  {
    assert LogLines(None)[2][2] == 'D';
    assert ("  " + job)[2] == 'P';
  }
}
