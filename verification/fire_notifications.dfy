/** The fire alerts, clue pop-ups and the game's fire alarm flag, and the
    room-name formatter that turns `BreakRoom` into `Break Room`. The UI
    manager is a flag: when it is missing nothing is displayed, but the
    alarm flag still changes. */
module FireNotifications {
  import opened Common

  predicate IsLower(c: char) {
    'a' <= c <= 'z'
  }

  predicate IsUpper(c: char) {
    'A' <= c <= 'Z'
  }

  /** A lower-case ASCII letter directly followed by an upper-case one. */
  predicate IsPair(s: string, j: int)
    requires 0 <= j
  {
    j + 1 < |s| && IsLower(s[j]) && IsUpper(s[j + 1])
  }

  /** The number of such pairs in `s`. */
  function CountPairs(s: string): nat {
    if |s| < 2 then 0 else (if IsPair(s, 0) then 1 else 0) + CountPairs(s[1..])
  }

  /** The regular-expression replacement of `([a-z])([A-Z])` by `$1 $2`:
      matches of that pattern never overlap, so every pair gets its space. */
  function FormatRoomName(s: string): (r: string)
    ensures |r| == |s| + CountPairs(s)
    ensures |s| > 0 ==> |r| > 0 && r[0] == s[0]
    decreases |s|
  {
    if |s| == 0 then s
    else if IsPair(s, 0) then [s[0], ' '] + FormatRoomName(s[1..])
    else [s[0]] + FormatRoomName(s[1..])
  }

  /** Where character i of the input lands: after i characters and the spaces
      of the pairs that end at or before it. */
  function Landing(s: string, i: int): int
    requires 0 <= i < |s|
  {
    i + CountPairs(s[..i + 1])
  }

  lemma CountPairsPrefixShift(s: string, i: int)
    requires 0 < i < |s|
    ensures CountPairs(s[..i + 1]) == (if IsPair(s, 0) then 1 else 0) + CountPairs(s[1..][..i])
  {
    var p := s[..i + 1];
    assert p[1..] == s[1..][..i];
    assert IsPair(p, 0) == IsPair(s, 0);
  }

  /** Every input character is kept, in order, at its landing position, and a
      space follows the first letter of every pair: the formatter inserts
      exactly these spaces and changes nothing else. */
  lemma {:induction false} FormatRoomNamePositions(s: string, i: int)
    requires 0 <= i < |s|
    ensures Landing(s, i) < |FormatRoomName(s)|
    ensures FormatRoomName(s)[Landing(s, i)] == s[i]
    ensures IsPair(s, i) ==> Landing(s, i) + 1 < |FormatRoomName(s)| && FormatRoomName(s)[Landing(s, i) + 1] == ' '
    decreases |s|
  {
    var r := FormatRoomName(s);
    var tail := FormatRoomName(s[1..]);
    var lead := if IsPair(s, 0) then 1 else 0;
    assert r[1 + lead..] == tail;
    if i == 0 {
      assert s[..1][1..] == [];
    } else {
      CountPairsPrefixShift(s, i);
      FormatRoomNamePositions(s[1..], i - 1);
      assert Landing(s, i) == 1 + lead + Landing(s[1..], i - 1);
      assert IsPair(s, i) == IsPair(s[1..], i - 1);
    }
  }

  /** A name with no lower-upper pair is left as it is. */
  lemma {:induction false} FormatNoPairsUnchanged(s: string)
    requires CountPairs(s) == 0
    ensures FormatRoomName(s) == s
    decreases |s|
  {
    if |s| > 0 {
      if |s| >= 2 {
        FormatNoPairsUnchanged(s[1..]);
      }
      assert [s[0]] + s[1..] == s;
    }
  }

  /** The formatted name has no lower-upper pair left. */
  lemma {:induction false} FormatLeavesNoPairs(s: string)
    ensures CountPairs(FormatRoomName(s)) == 0
    decreases |s|
  {
    if |s| > 0 {
      var tail := FormatRoomName(s[1..]);
      FormatLeavesNoPairs(s[1..]);
      if IsPair(s, 0) {
        var r := [s[0], ' '] + tail;
        assert r[1..] == [' '] + tail;
        assert ([' '] + tail)[1..] == tail;
      } else {
        var r := [s[0]] + tail;
        assert r[1..] == tail;
      }
    }
  }

  /** Formatting twice is formatting once. */
  lemma FormatIdempotent(s: string)
    ensures FormatRoomName(FormatRoomName(s)) == FormatRoomName(s)
  {
    FormatLeavesNoPairs(s);
    FormatNoPairsUnchanged(FormatRoomName(s));
  }

  datatype Message =
    | GameEvent(title: string, body: string)
    | Notification(title: string, body: string)
    | Hint(text: string)

  /** What the players see: the game's fire alarm flag and the messages
      displayed so far; `ui` says whether a UI manager exists. */
  datatype Display = Display(ui: bool, alarmEnabled: bool, shown: seq<Message>)

  function Show(d: Display, m: Message): (r: Display)
    ensures r.ui == d.ui && r.alarmEnabled == d.alarmEnabled
    ensures r.shown == if d.ui then d.shown + [m] else d.shown
  {
    if d.ui then d.(shown := d.shown + [m]) else d
  }

  /** Announces a fire and switches the game's fire alarm on. */
  function ShowIgnitionAlert(d: Display, room: string): (r: Display)
    ensures r.alarmEnabled
    ensures r.ui == d.ui
    ensures d.ui ==> r.shown == d.shown + [GameEvent("FIRE REPORTED", "A fire has been reported in " + FormatRoomName(room) + "!")]
  {
    Show(d, GameEvent("FIRE REPORTED", "A fire has been reported in " + FormatRoomName(room) + "!")).(alarmEnabled := true)
  }

  function ShowSpreadAlert(d: Display, room: string): (r: Display)
    ensures r.alarmEnabled == d.alarmEnabled
    ensures d.ui ==> r.shown == d.shown + [Notification("Fire Spreading", "The fire has spread to " + FormatRoomName(room) + "!")]
  {
    Show(d, Notification("Fire Spreading", "The fire has spread to " + FormatRoomName(room) + "!"))
  }

  function ShowExtinguishedAlert(d: Display, room: string): (r: Display)
    ensures r.alarmEnabled == d.alarmEnabled
    ensures d.ui ==> r.shown == d.shown + [Notification("Fire Extinguished", "Fire in " + FormatRoomName(room) + " has been extinguished.")]
  {
    Show(d, Notification("Fire Extinguished", "Fire in " + FormatRoomName(room) + " has been extinguished."))
  }

  /** Announces that every fire is out and switches the fire alarm off. */
  function ShowAllFiresOutAlert(d: Display): (r: Display)
    ensures !r.alarmEnabled
    ensures r.ui == d.ui
    ensures d.ui ==> r.shown == d.shown + [GameEvent("ALL CLEAR", "All fires have been extinguished! Return to work.")]
  {
    Show(d, GameEvent("ALL CLEAR", "All fires have been extinguished! Return to work.")).(alarmEnabled := false)
  }

  /** The alarm follows the last alert: on after an ignition, off after the
      all-clear, whatever came before. */
  lemma AlarmFollowsLastAlert(d: Display, room: string)
    ensures !ShowAllFiresOutAlert(ShowIgnitionAlert(d, room)).alarmEnabled
    ensures ShowIgnitionAlert(ShowAllFiresOutAlert(d), room).alarmEnabled
  {
  }

  /** A clue for one player (or for everyone when there is no target). */
  datatype Clue = Clue(message: string, target: Option<string>)

  /** Whether a clue appears on this client. */
  predicate ShownHere(c: Clue, localPlayer: Option<string>) {
    c.target.None? || (localPlayer.Some? && localPlayer.value == c.target.value)
  }

  /** Shows a clue as a hint, only on the target's client when it has one. */
  function ShowClue(d: Display, c: Clue, localPlayer: Option<string>): (r: Display)
    ensures r.alarmEnabled == d.alarmEnabled && r.ui == d.ui
    ensures !ShownHere(c, localPlayer) ==> r == d
    ensures ShownHere(c, localPlayer) && d.ui ==> r.shown == d.shown + [Hint("[Clue] " + c.message)]
  {
    if c.target.Some? && (localPlayer.None? || localPlayer.value != c.target.value) then d
    else Show(d, Hint("[Clue] " + c.message))
  }

  /** `string.Join(sep, parts)`. */
  function JoinWith(sep: string, parts: seq<string>): (r: string)
    ensures |parts| == 1 ==> r == parts[0]
    ensures |parts| == 0 ==> r == ""
  {
    if |parts| == 0 then ""
    else if |parts| == 1 then parts[0]
    else parts[0] + sep + JoinWith(sep, parts[1..])
  }

  /** Total length of the parts. */
  function PartsLength(parts: seq<string>): nat {
    if |parts| == 0 then 0 else |parts[0]| + PartsLength(parts[1..])
  }

  /** A joined list holds every part and one separator between neighbours. */
  lemma {:induction false} JoinWithLength(sep: string, parts: seq<string>)
    requires |parts| >= 1
    ensures |JoinWith(sep, parts)| == PartsLength(parts) + (|parts| - 1) * |sep|
    ensures JoinWith(sep, parts)[..|parts[0]|] == parts[0]
    decreases |parts|
  {
    if |parts| > 1 {
      JoinWithLength(sep, parts[1..]);
    }
  }

  /** The untargeted clue naming the players seen near a fire. */
  function ProximityClue(room: string, players: seq<string>): (c: Clue)
    ensures c.target.None?
    ensures forall local :: ShownHere(c, local)
  {
    Clue(ProximityLead + FormatRoomName(room) + " before the fire: " + JoinWith(", ", players), None)
  }

  /** The tampered-detector clue for one player. */
  function TamperedDetectorClue(player: string): (c: Clue)
    ensures forall local :: ShownHere(c, local) <==> local == Some(player)
  {
    Clue("A smoke detector nearby appears to have been tampered with.", Some(player))
  }

  const ProximityLead := "Players seen near "

  /** The proximity clue reaches every client's screen and opens with the
      room's formatted name. */
  lemma ProximityClueShownToAll(d: Display, room: string, players: seq<string>, local: Option<string>)
    requires d.ui
    ensures var c := ProximityClue(room, players);
      ShowClue(d, c, local).shown == d.shown + [Hint("[Clue] " + c.message)]
    ensures var lead := ProximityLead + FormatRoomName(room);
      ProximityClue(room, players).message[..|lead|] == lead
  {
    var lead := ProximityLead + FormatRoomName(room);
    var c := ProximityClue(room, players);
    assert c.message == lead + (" before the fire: " + JoinWith(", ", players));
  }
}
