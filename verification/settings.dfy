/** The host-configurable round settings and their player-count scaling. */
module Settings {

  datatype ArsonSettings = ArsonSettings(
    fireSpreadInterval: real,       // seconds between spread steps
    extinguishTime: real,           // grace period once enough rooms burn
    roomsToWin: int,                // simultaneously burning rooms needed
    pauseFireDuringMeetings: bool,
    extinguisherCharges: int,
    extinguisherRespawnTime: real,
    arsonTaskCooldown: real,        // 0 means no cooldown
    arsonistCount: int)

  const Defaults := ArsonSettings(20.0, 10.0, 3, true, 2, 30.0, 0.0, 1)

  /** The spread interval multiplier for lobbies of fifteen or more. */
  const LargeLobbySpreadFactor: real := 1.2

  /** The win threshold grows with the lobby, and large lobbies also spread
      fire more slowly; nothing else changes. */
  function ApplyPlayerCountScaling(s: ArsonSettings, playerCount: int): (r: ArsonSettings)
    ensures playerCount <= 8 ==> r.roomsToWin == 2
    ensures 8 < playerCount <= 14 ==> r.roomsToWin == 3
    ensures 14 < playerCount ==> r.roomsToWin == 5
    ensures playerCount <= 14 ==> r.fireSpreadInterval == s.fireSpreadInterval
    ensures 14 < playerCount ==> r.fireSpreadInterval == s.fireSpreadInterval * LargeLobbySpreadFactor
    ensures r == s.(roomsToWin := r.roomsToWin, fireSpreadInterval := r.fireSpreadInterval)
  {
    if playerCount <= 8 then s.(roomsToWin := 2)
    else if playerCount <= 14 then s.(roomsToWin := 3)
    else s.(roomsToWin := 5, fireSpreadInterval := s.fireSpreadInterval * LargeLobbySpreadFactor)
  }

  /** The win threshold never shrinks as the lobby grows. */
  lemma ScalingMonotone(s: ArsonSettings, a: int, b: int)
    requires a <= b
    ensures ApplyPlayerCountScaling(s, a).roomsToWin <= ApplyPlayerCountScaling(s, b).roomsToWin
  {
  }

  /** For lobbies of at most fourteen, scaling twice is scaling once; larger
      lobbies compound the spread slow-down on every call. */
  lemma ScalingIdempotentUpToFourteen(s: ArsonSettings, n: int)
    ensures n <= 14 ==> ApplyPlayerCountScaling(ApplyPlayerCountScaling(s, n), n) == ApplyPlayerCountScaling(s, n)
    ensures n > 14 && s.fireSpreadInterval > 0.0 ==>
      ApplyPlayerCountScaling(ApplyPlayerCountScaling(s, n), n).fireSpreadInterval
        > ApplyPlayerCountScaling(s, n).fireSpreadInterval
  {
  }
}
