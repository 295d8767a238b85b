/** The mod's message layer: typed messages with text payloads, delivered
    locally exactly once, and the `"playerId:taskIndex"` payload for arson
    task progress. */
module NetworkSync {
  import opened Common
  import opened Text

  datatype MessageType =
    | FireIgnited | FireSpread | FireExtinguished | AllFiresOut
    | ExtinguisherPickedUp | ExtinguisherDepleted | ExtinguisherRespawned
    | ArsonTaskCompleted | ArsonModeToggled | SettingsChanged | SlackerWin

  /** The byte each message type is sent as. */
  function Code(t: MessageType): (b: int)
    ensures 1 <= b <= 11
  {
    match t
    case FireIgnited => 1
    case FireSpread => 2
    case FireExtinguished => 3
    case AllFiresOut => 4
    case ExtinguisherPickedUp => 5
    case ExtinguisherDepleted => 6
    case ExtinguisherRespawned => 7
    case ArsonTaskCompleted => 8
    case ArsonModeToggled => 9
    case SettingsChanged => 10
    case SlackerWin => 11
  }

  /** Distinct types are sent as distinct bytes. */
  lemma CodeInjective(s: MessageType, t: MessageType)
    ensures Code(s) == Code(t) ==> s == t
  {
  }

  datatype Message = Message(kind: MessageType, payload: string)

  /** The events a delivered message raises. */
  datatype Received =
    | FireIgnitedReceived(room: string)
    | FireSpreadReceived(room: string)
    | FireExtinguishedReceived(room: string)
    | AllFiresOutReceived
    | ExtinguisherPickedUpReceived(extinguisher: string)
    | ExtinguisherDepletedReceived(extinguisher: string)
    | ExtinguisherRespawnedReceived(extinguisher: string)
    | ArsonTaskCompletedReceived(player: string, taskIndex: int)
    | ArsonModeToggledReceived(enabled: bool)
    | SlackerWinReceived

  /** Splits a task-completion payload at ':' into a player id and an
      integer; anything but exactly two parts with a parsable second part is
      dropped. */
  function ParseTaskCompleted(payload: string): (r: Option<(string, int)>)
    ensures r.Some? ==> ':' !in r.value.0 && IsInt32(r.value.1)
    ensures |Split(payload, ':')| != 2 ==> r.None?
  {
    var parts := Split(payload, ':');
    if |parts| == 2 then
      match ParseInt(parts[1])
      case Some(i) => Some((parts[0], i))
      case None => None
    else None
  }

  /** The events one delivered message raises: none for a settings change
      or an unreadable task payload, exactly one otherwise. */
  function OnMessageReceived(m: Message): (r: seq<Received>)
    ensures |r| <= 1
    ensures m.kind == SettingsChanged ==> r == []
    ensures m.kind == ArsonModeToggled ==> r == [ArsonModeToggledReceived(m.payload == "1")]
    ensures m.kind == FireIgnited ==> r == [FireIgnitedReceived(m.payload)]
    ensures m.kind == ArsonTaskCompleted ==> (|r| == 1 <==> ParseTaskCompleted(m.payload).Some?)
  {
    match m.kind
    case FireIgnited => [FireIgnitedReceived(m.payload)]
    case FireSpread => [FireSpreadReceived(m.payload)]
    case FireExtinguished => [FireExtinguishedReceived(m.payload)]
    case AllFiresOut => [AllFiresOutReceived]
    case ExtinguisherPickedUp => [ExtinguisherPickedUpReceived(m.payload)]
    case ExtinguisherDepleted => [ExtinguisherDepletedReceived(m.payload)]
    case ExtinguisherRespawned => [ExtinguisherRespawnedReceived(m.payload)]
    case ArsonTaskCompleted =>
      (match ParseTaskCompleted(m.payload)
       case Some(p) => [ArsonTaskCompletedReceived(p.0, p.1)]
       case None => [])
    case ArsonModeToggled => [ArsonModeToggledReceived(m.payload == "1")]
    case SettingsChanged => []
    case SlackerWin => [SlackerWinReceived]
  }

  /** Sending delivers the message to this client once, with nothing sent
      over the wire by the mod itself. */
  function SendMessage(m: Message): (r: seq<Received>)
    ensures |r| <= 1
    ensures m.kind != SettingsChanged && m.kind != ArsonTaskCompleted ==> |r| == 1
  {
    OnMessageReceived(m)
  }

  function BroadcastArsonTaskCompleted(player: string, taskIndex: int): (m: Message)
    ensures m.kind == ArsonTaskCompleted
    ensures m.payload == player + ":" + IntToString(taskIndex)
  {
    Message(ArsonTaskCompleted, player + [':'] + IntToString(taskIndex))
  }

  function BroadcastArsonModeToggled(enabled: bool): (m: Message)
    ensures m.kind == ArsonModeToggled
  {
    Message(ArsonModeToggled, if enabled then "1" else "0")
  }

  /** A task-completion broadcast is received as the same player and index,
      provided the player id has no ':' in it. */
  lemma TaskCompletedRoundTrip(player: string, taskIndex: int)
    requires ':' !in player
    requires IsInt32(taskIndex)
    ensures SendMessage(BroadcastArsonTaskCompleted(player, taskIndex)) ==
      [ArsonTaskCompletedReceived(player, taskIndex)]
  {
    var parts := [player, IntToString(taskIndex)];
    assert ':' !in IntToString(taskIndex) by {
      assert forall k :: 0 <= k < |IntToString(taskIndex)| ==>
        IntToString(taskIndex)[k] == '-' || IsDigit(IntToString(taskIndex)[k]) by {
        if taskIndex < 0 {
          assert forall k :: 1 <= k < |IntToString(taskIndex)| ==>
            IntToString(taskIndex)[k] == NatToString(-taskIndex)[k - 1];
        }
      }
    }
    assert Join(parts, ':') == player + [':'] + IntToString(taskIndex);
    SplitJoin(parts, ':');
    IntToStringRoundTrip(taskIndex);
  }

  /** A player id containing ':' splits into more than two parts, so its
      broadcast is dropped on receipt. */
  lemma TaskCompletedColonDropped(player: string, taskIndex: int)
    requires ':' in player
    ensures SendMessage(BroadcastArsonTaskCompleted(player, taskIndex)) == []
  {
    var payload := player + [':'] + IntToString(taskIndex);
    var k :| 0 <= k < |player| && player[k] == ':';
    assert payload[k] == ':' && payload[|player|] == ':';
    SplitCount(payload, ':');
  }

  /** The number of pieces is one more than the number of separators. */
  function CountChar(s: string, c: char): nat {
    if |s| == 0 then 0 else (if s[0] == c then 1 else 0) + CountChar(s[1..], c)
  }

  lemma {:induction false} SplitCountPieces(s: string, sep: char)
    ensures |Split(s, sep)| == CountChar(s, sep) + 1
    decreases |s|
  {
    if |s| > 0 {
      SplitCountPieces(s[1..], sep);
    }
  }

  lemma CountCharAppend(a: string, b: string, c: char)
    ensures CountChar(a + b, c) == CountChar(a, c) + CountChar(b, c)
  {
    if |a| > 0 {
      assert (a + b)[1..] == a[1..] + b;
      CountCharAppend(a[1..], b, c);
    } else {
      assert a + b == b;
    }
  }

  lemma SplitCount(s: string, sep: char)
    requires exists k, m :: 0 <= k < m < |s| && s[k] == sep && s[m] == sep
    ensures |Split(s, sep)| > 2
  {
    var k, m :| 0 <= k < m < |s| && s[k] == sep && s[m] == sep;
    SplitCountPieces(s, sep);
    assert s == s[..k] + [s[k]] + s[k + 1..m] + [s[m]] + s[m + 1..];
    CountCharAppend(s[..k] + [s[k]] + s[k + 1..m] + [s[m]], s[m + 1..], sep);
    CountCharAppend(s[..k] + [s[k]] + s[k + 1..m], [s[m]], sep);
    CountCharAppend(s[..k] + [s[k]], s[k + 1..m], sep);
    CountCharAppend(s[..k], [s[k]], sep);
  }

  /** The mode toggle is received as the value broadcast. */
  lemma ModeToggledRoundTrip(enabled: bool)
    ensures SendMessage(BroadcastArsonModeToggled(enabled)) == [ArsonModeToggledReceived(enabled)]
  {
  }
}
