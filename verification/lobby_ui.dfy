/** The lobby's Arson Mode options: multiple-choice settings whose stored
    index is clamped into a value table and copied into the round settings
    every frame, the mode toggle, and the per-task On/Off switches. */
module LobbyUI {
  import opened Common
  import opened Settings

  const FireSpreadValues: seq<real> := [10.0, 15.0, 20.0, 25.0, 30.0]
  const ExtinguishTimeValues: seq<real> := [5.0, 8.0, 10.0, 12.0, 15.0]
  const RoomsToWinValues: seq<int> := [1, 2, 3, 4, 5]
  const ArsonistCountValues: seq<int> := [1, 2, 3]

  /** The option index each setting is created with. */
  const DefaultEnabledIndex := 0
  const DefaultFireSpreadIndex := 2
  const DefaultExtinguishTimeIndex := 2
  const DefaultRoomsToWinIndex := 2
  const DefaultArsonistCountIndex := 0
  const DefaultTaskIndex := 1
  const ArsonTaskSettingCount := 5

  /** The cached setting objects (none until found or created), each
      holding its selected option index. */
  datatype Lobby = Lobby(
    injected: bool,
    enabled: Option<int>,
    fireSpread: Option<int>,
    extinguishTime: Option<int>,
    roomsToWin: Option<int>,
    arsonistCount: Option<int>,
    taskSettings: Option<seq<Option<int>>>)

  const Cleared := Lobby(false, None, None, None, None, None, None)

  /** The lobby just after the settings are created with their defaults. */
  const FreshlyInjected := Lobby(true, Some(DefaultEnabledIndex), Some(DefaultFireSpreadIndex),
                                 Some(DefaultExtinguishTimeIndex), Some(DefaultRoomsToWinIndex),
                                 Some(DefaultArsonistCountIndex),
                                 Some(seq(ArsonTaskSettingCount, _ => Some(DefaultTaskIndex))))

  /** `Mathf.Clamp` on integers. */
  function Clamp(v: int, lo: int, hi: int): (r: int)
    requires lo <= hi
    ensures lo <= r <= hi
    ensures lo <= v <= hi ==> r == v
    ensures v < lo ==> r == lo
    ensures hi < v ==> r == hi
  {
    if v < lo then lo else if hi < v then hi else v
  }

  /** The table entry at the clamped index: always a member of the table. */
  function Lookup<T>(table: seq<T>, index: int): (r: T)
    requires |table| > 0
    ensures r in table
    ensures 0 <= index < |table| ==> r == table[index]
  {
    table[Clamp(index, 0, |table| - 1)]
  }

  /** The default indices select the round settings' own defaults. */
  lemma DefaultIndicesMatchDefaults()
    ensures Lookup(FireSpreadValues, DefaultFireSpreadIndex) == Defaults.fireSpreadInterval
    ensures Lookup(ExtinguishTimeValues, DefaultExtinguishTimeIndex) == Defaults.extinguishTime
    ensures Lookup(RoomsToWinValues, DefaultRoomsToWinIndex) == Defaults.roomsToWin
    ensures Lookup(ArsonistCountValues, DefaultArsonistCountIndex) == Defaults.arsonistCount
  {
  }

  /** The outcome of a poll: the settings, whether Arson Mode is on, and
      whether the poll switched it (and broadcast the new state). */
  datatype Poll = Poll(settings: Option<ArsonSettings>, modeActive: bool, toggled: bool)

  function Apply<T>(setting: Option<int>, table: seq<T>, current: T): (r: T)
    requires |table| > 0
    ensures setting.None? ==> r == current
    ensures setting.Some? ==> r == Lookup(table, setting.value)
  {
    match setting
    case None => current
    case Some(v) => Lookup(table, v)
  }

  /** Copies the lobby's choices into the round settings. Nothing happens
      before the settings are injected or when there are no round settings. */
  function PollSettingValues(l: Lobby, settings: Option<ArsonSettings>, modeActive: bool): (r: Poll)
    ensures !l.injected || settings.None? ==> r == Poll(settings, modeActive, false)
    ensures l.injected && settings.Some? ==> r.settings.Some?
    ensures l.injected && settings.Some? ==>
      var s := r.settings.value;
      var prev := settings.value;
      && (r.toggled <==> l.enabled.Some? && (l.enabled.value >= 1) != modeActive)
      && r.modeActive == (if l.enabled.Some? then l.enabled.value >= 1 else modeActive)
      && (l.fireSpread.Some? ==> s.fireSpreadInterval in FireSpreadValues)
      && (l.extinguishTime.Some? ==> s.extinguishTime in ExtinguishTimeValues)
      && (l.roomsToWin.Some? ==> s.roomsToWin in RoomsToWinValues)
      && (l.arsonistCount.Some? ==> s.arsonistCount in ArsonistCountValues)
      && s == prev.(fireSpreadInterval := s.fireSpreadInterval, extinguishTime := s.extinguishTime,
                   roomsToWin := s.roomsToWin, arsonistCount := s.arsonistCount)
  {
    if !l.injected || settings.None? then Poll(settings, modeActive, false)
    else
      var toggled := l.enabled.Some? && (l.enabled.value >= 1) != modeActive;
      var mode := if toggled then !modeActive else modeActive;
      var prev := settings.value;
      var s := prev.(fireSpreadInterval := Apply(l.fireSpread, FireSpreadValues, prev.fireSpreadInterval),
                    extinguishTime := Apply(l.extinguishTime, ExtinguishTimeValues, prev.extinguishTime),
                    roomsToWin := Apply(l.roomsToWin, RoomsToWinValues, prev.roomsToWin),
                    arsonistCount := Apply(l.arsonistCount, ArsonistCountValues, prev.arsonistCount));
      Poll(Some(s), mode, toggled)
  }

  /** Polling the freshly created settings leaves default round settings
      untouched and keeps Arson Mode off. */
  lemma PollFreshDefaults()
    ensures PollSettingValues(FreshlyInjected, Some(Defaults), false) == Poll(Some(Defaults), false, false)
  {
  }

  /** Polling is idempotent: a second poll in the same frame changes nothing more. */
  lemma PollIdempotent(l: Lobby, settings: Option<ArsonSettings>, modeActive: bool)
    ensures var p := PollSettingValues(l, settings, modeActive);
      PollSettingValues(l, p.settings, p.modeActive) == Poll(p.settings, p.modeActive, false)
  {
  }

  /** A task switch reads as enabled unless a cached switch says Off. */
  function IsArsonTaskEnabled(l: Lobby, taskIndex: int): (b: bool)
    ensures l.taskSettings.None? ==> b
    ensures l.taskSettings.Some? && !(0 <= taskIndex < |l.taskSettings.value|) ==> b
    ensures l.taskSettings.Some? && 0 <= taskIndex < |l.taskSettings.value| ==>
      (b <==> l.taskSettings.value[taskIndex].None? || l.taskSettings.value[taskIndex].value >= 1)
  {
    match l.taskSettings
    case None => true
    case Some(ts) =>
      if taskIndex < 0 || taskIndex >= |ts| then true
      else
        match ts[taskIndex]
        case None => true
        case Some(v) => v >= 1
  }

  /** Forgets every cached setting. */
  function Reset(l: Lobby): (r: Lobby)
    ensures !r.injected
    ensures forall i :: IsArsonTaskEnabled(r, i)
  {
    Cleared
  }

  /** After a reset polling does nothing until the settings are injected again. */
  lemma ResetStopsPolling(l: Lobby, settings: Option<ArsonSettings>, modeActive: bool)
    ensures PollSettingValues(Reset(l), settings, modeActive) == Poll(settings, modeActive, false)
  {
  }
}
