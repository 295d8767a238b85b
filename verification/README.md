# Arson Mode, modelled in Dafny

Arson Mode is a MelonLoader mod for a multiplayer office game. One or more Slackers become arsonists. Each works through a chain of five sabotage tasks, and the last task sets a stuffed trash bin alight. The fire then spreads from room to room. The arsonists win once enough rooms burn for long enough. Other players put fires out with wall-mounted extinguishers and can vote an arsonist out in a meeting, which puts every fire out. Clues point the other players at the arsonist: who stood near the origin room, a jammed smoke detector, and an odd print job in the printer's log.

This project models the mod's core as pure functions over immutable values. It also proves the properties the code promises.

- **Fire engine** (`fire_engine.dfy`, `room_graph.dfy`): the room map over the symmetric adjacency graph, plus ignition, spread, extinguishing, pause and the win countdown.
- **Task chain** (`task_chain.dfy`): the five task definitions, per-player progress gated by index and cooldown, the bin binding between tasks 3 and 4, and the interleaving of arson entries into task lists.
- **Items and stations** (`inventory.dfy`, `interaction.dfy`, one file per task station, `fire_extinguisher.dfy`, `task_injector.dfy`): the inventory, the timed interactions of the five task stations, the extinguisher's charge, depletion and respawn cycle, and the task injector's completion path.
- **Round wiring** (`arson_mod.dfy`, `harmony_patches.dfy`): scene loading, the per-frame update, arsonist selection, meetings, bin fires, task-queue filtering and the cigarette flag.
- **Small pieces**:
  - `player_access.dfy`: the arsonist set and seeded selection;
  - `settings.dfy`, `lobby_ui.dfy`: settings, lobby tables and clamping;
  - `network_sync.dfy`, `text.dfy`: the message payloads with C# integer formatting and parsing;
  - `fire_notifications.dfy`: the camel-case room-name formatter and the alarm flag;
  - `proximity_tracker.dfy`, `smoke_detector_clue.dfy`, `print_log_clue.dfy`: the three clue rules;
  - `ordering.dfy`, `common.dfy`: shared helpers.

Conventions:

- **Time.** Game time and frame time are exact reals, passed in as `now` and `dt`.
- **Game and runtime inputs.** Everything the game or runtime supplies is a parameter:
  - the player list and the local player;
  - the rooms and bins of the scene;
  - the culture-sensitive string comparer, modelled as an abstract total order `le`;
  - `string.GetHashCode`, the hash of a fresh GUID, and `System.Random`'s draws, which must lie in bounds.
- **Collections.** Dictionaries and hash sets are enumerated in insertion order. Contracts promise "some member" wherever the code does.
- **C# integers.** 32-bit wrap-around and C#'s truncating `%` are written out in `Common.Wrap32` and `Common.CsRem`.
- **Events.** Calls that raise a C# event become `FireEngine.Event` values. The round state (`ArsonModEntry.Announce`) routes them.
- **Bin fires.** The spread calls a bin's fire RPC, and the bin-fire hook in `HarmonyPatches.cs` echoes it back into ignition. `FireEngine.SpreadFire` takes this as a parameter of its `SpreadEnv`: whether the spread can signal the bin, and whether the hook relays the fire back to the room.

## Model

| member | source | states |
|---|---|---|
| Common.Wrap32 | ArsonMod/Core/PlayerAccess.cs:252-254 | unchecked 32-bit arithmetic: the result is a 32-bit integer congruent to the exact value modulo 2^32, and equal to it when it already fits |
| Common.CsRem | ArsonMod/Tasks/ArsonTaskInjector.cs:945 | C#'s remainder takes the sign of the dividend, is smaller in magnitude than the divisor, and has the magnitude of the Euclidean remainder of the magnitudes |
| Common.NoDupsCardinality | ArsonMod/Fire/FireManager.cs:54 | a duplicate-free list, such as the list of burning rooms, has as many distinct members as entries |
| Settings.ApplyPlayerCountScaling | ArsonMod/Core/ArsonSettings.cs:30-45 | lobbies of at most 8 need 2 burning rooms, 9 to 14 need 3, 15 or more need 5 and spread 1.2 times more slowly; no other setting changes |
| Settings.ScalingMonotone | ArsonMod/Core/ArsonSettings.cs:30-45 | a larger lobby never needs fewer burning rooms to win |
| Settings.ScalingIdempotentUpToFourteen | ArsonMod/Core/ArsonSettings.cs:30-45 | scaling twice equals scaling once up to 14 players; above that the spread slow-down compounds on every call |
| Inventory.HasItem | ArsonMod/Core/PlayerInventory.cs:22-26 | holds exactly when the player has a bag and the item is in it; a player without a bag holds nothing |
| Inventory.AddItem | ArsonMod/Core/PlayerInventory.cs:14-20 | afterwards the player holds the item and every other holding is unchanged; the player gets a bag if they had none |
| Inventory.RemoveItem | ArsonMod/Core/PlayerInventory.cs:28-34 | the result is true exactly when the player held the item; only that holding disappears and no bag is created or dropped |
| Inventory.Reset | ArsonMod/Core/PlayerInventory.cs:39-42 | afterwards nobody holds anything |
| Inventory.AddRemoveRestores | ArsonMod/Core/PlayerInventory.cs:14-34 | adding an item the player did not hold and then removing it succeeds and restores every holding |
| Inventory.RemoveTwiceFails | ArsonMod/Core/PlayerInventory.cs:28-34 | a second removal of the same item reports false |
| RoomGraph.AddRoom | ArsonMod/Fire/RoomAdjacency.cs:82-83 | a room seen for the first time gets an empty neighbour list; no adjacency changes |
| RoomGraph.Link | ArsonMod/Fire/RoomAdjacency.cs:85-86 | exactly the one directed edge is added and neighbour lists stay free of repeats |
| RoomGraph.AddEdge | ArsonMod/Fire/RoomAdjacency.cs:80-87 | the two rooms become neighbours in both directions, both rooms are listed, and no other adjacency appears; symmetry is kept |
| RoomGraph.AddConnection | ArsonMod/Fire/RoomAdjacency.cs:41-51 | a connection with a null or empty room name is skipped; otherwise its two rooms are joined both ways |
| RoomGraph.AddConnections | ArsonMod/Fire/RoomAdjacency.cs:41-51 | folding the connections keeps the graph symmetric and free of repeated neighbours |
| RoomGraph.AddConnectionsEdges | ArsonMod/Fire/RoomAdjacency.cs:41-51 | after the fold two rooms are neighbours exactly when they were before or some usable connection joins them |
| RoomGraph.AddConnectionsRooms | ArsonMod/Fire/RoomAdjacency.cs:41-51 | after the fold a room is listed exactly when it was before or is an endpoint of a usable connection |
| RoomGraph.Initialize | ArsonMod/Fire/RoomAdjacency.cs:21-58 | the graph is rebuilt from scratch; without a room manager or a connection table it stays empty |
| RoomGraph.GetAdjacentRooms | ArsonMod/Fire/RoomAdjacency.cs:60-65 | returns exactly the room's neighbours, each once; an unknown room has none |
| RoomGraph.GetAllRooms | ArsonMod/Fire/RoomAdjacency.cs:67-70 | returns each known room exactly once |
| RoomGraph.InitializeEdges | ArsonMod/Fire/RoomAdjacency.cs:21-58 | two rooms are neighbours exactly when a connection with both names present joins them, in either order |
| RoomGraph.InitializeRooms | ArsonMod/Fire/RoomAdjacency.cs:21-58 | the rooms listed are exactly the endpoints of usable connections |
| RoomGraph.AdjacencySymmetric | ArsonMod/Fire/RoomAdjacency.cs:80-87 | x neighbours y exactly when y neighbours x |
| PlayerAccess.IsArsonist | ArsonMod/Core/PlayerAccess.cs:212-215 | holds exactly when the id is in the arsonist set |
| PlayerAccess.SetArsonist | ArsonMod/Core/PlayerAccess.cs:206-209 | afterwards the player is an arsonist and membership of everyone else is unchanged; adding twice is adding once |
| PlayerAccess.IsArsonistPlayer | ArsonMod/Core/PlayerAccess.cs:217-220 | a null lobby player is never an arsonist; otherwise it is one exactly when its id is in the set |
| PlayerAccess.GetArsonistId | ArsonMod/Core/PlayerAccess.cs:223-226 | null exactly when nobody is an arsonist, otherwise some arsonist |
| PlayerAccess.Reset | ArsonMod/Core/PlayerAccess.cs:231-235 | afterwards nobody is an arsonist |
| PlayerAccess.SetAllMembers | ArsonMod/Core/PlayerAccess.cs:206-209 | after adding a list of ids, a player is an arsonist exactly when it was one before or is in the list |
| PlayerAccess.ArsonistSinceReset | ArsonMod/Core/PlayerAccess.cs:206-235 | after a reset and a run of additions, the arsonists are exactly the ids added |
| PlayerAccess.SlackerIds | ArsonMod/Core/PlayerAccess.cs:245-246 | the ids returned are exactly those of players whose role is Slacker |
| PlayerAccess.Seed | ArsonMod/Core/PlayerAccess.cs:252-254 | the seed stays within the 32-bit range, as unchecked `seed * 31 + hash` wraps |
| PlayerAccess.Draws | ArsonMod/Core/PlayerAccess.cs:257-264 | draws exactly as many ids as requested, without replacement, so every drawn id comes from the pool and none is drawn more often than it occurs |
| PlayerAccess.SelectArsonist | ArsonMod/Core/PlayerAccess.cs:241-267 | with no Slacker nothing changes and null is returned; otherwise the return value is an arsonist of the updated set |
| PlayerAccess.SelectionDrawsSlackers | ArsonMod/Core/PlayerAccess.cs:241-267 | the selection adds exactly the drawn ids, which are Slackers without repetition, numbering the setting's count capped at the number of Slackers; with a count of at least 1 some arsonist is returned |
| PlayerAccess.SelectionDeterministic | ArsonMod/Core/PlayerAccess.cs:245-255 | for one hash function and one name comparer, the selection depends only on which Slackers are listed, not on the order of the player list |
| Ordering.MinBy | ArsonMod/Fire/FireManager.cs:189-190 | the first element after sorting is one of the candidates |
| Ordering.MinByIsLeast | ArsonMod/Fire/FireManager.cs:188-190 | under a total order, the element chosen is at or below every candidate |
| Ordering.MinByUnique | ArsonMod/Fire/FireManager.cs:188-190 | any candidate below all others is the one chosen |
| Ordering.MinBySameElements | ArsonMod/Fire/FireManager.cs:188-190 | clients that collect the same candidates in different orders choose the same room |
| Ordering.Insert | ArsonMod/Core/PlayerAccess.cs:247 | insertion adds exactly one occurrence of the element and loses nothing |
| Ordering.SortBy | ArsonMod/Core/PlayerAccess.cs:247 | the sorted list is a permutation of the input |
| Ordering.InsertSorted | ArsonMod/Core/PlayerAccess.cs:247 | inserting into a sorted list keeps it sorted |
| Ordering.SortBySorted | ArsonMod/Core/PlayerAccess.cs:247 | the output is in order |
| Ordering.SortedUnique | ArsonMod/Core/PlayerAccess.cs:247 | two sorted arrangements of the same elements are identical |
| Ordering.SortByCanonical | ArsonMod/Core/PlayerAccess.cs:245-248 | sorting any rearrangement of the input gives the same list |
| FireEngine.Fresh | ArsonMod/Fire/FireManager.cs:60-63 | a newly constructed manager knows no rooms, has no active fire, is not paused and has not been won |
| FireEngine.GetRoomState | ArsonMod/Fire/FireManager.cs:306-309 | an unknown room reads as Safe; a room reads as Burning exactly when it is tracked as burning |
| FireEngine.BurningRoomCount | ArsonMod/Fire/FireManager.cs:55 | the number of tracked rooms whose state is Burning, counted over the room list |
| FireEngine.CountBurning | ArsonMod/Fire/FireManager.cs:55 | the count is zero exactly when no listed room burns, and never exceeds the number of rooms |
| FireEngine.FilterBurning | ArsonMod/Fire/FireManager.cs:313-319 | keeps exactly the burning rooms of the list, as many as the count, without repeats |
| FireEngine.GetBurningRooms | ArsonMod/Fire/FireManager.cs:313-319 | lists exactly the burning rooms, each once |
| FireEngine.BurningCountIsCardinality | ArsonMod/Fire/FireManager.cs:55 | the burning count equals the number of distinct burning rooms and the length of the burning list |
| FireEngine.Initialize | ArsonMod/Fire/FireManager.cs:65-87 | the graph is rebuilt, every discovered room is tracked as Safe, all flags and timers are cleared, and the origin room is kept |
| FireEngine.IgniteRoom | ArsonMod/Fire/FireManager.cs:140-161 | an unknown or already burning room changes nothing; otherwise the room burns from now, the fire becomes active, the origin is set only by the first ignition, the spread timer restarts and RoomIgnited is raised; nothing else changes |
| FireEngine.IgniteIdempotent | ArsonMod/Fire/FireManager.cs:139-146 | igniting the same room a second time changes nothing and raises nothing |
| FireEngine.IgniteAddsOne | ArsonMod/Fire/FireManager.cs:145-148 | igniting a room that does not burn raises the burning count by exactly one |
| FireEngine.AddSafe | ArsonMod/Fire/FireManager.cs:175-182 | appends the neighbours that are Safe and not yet collected, keeping the list free of repeats |
| FireEngine.Collect | ArsonMod/Fire/FireManager.cs:169-184 | the candidate list never repeats a room |
| FireEngine.CollectMembers | ArsonMod/Fire/FireManager.cs:169-184 | a room is collected exactly when it is Safe and adjacent to a burning room |
| FireEngine.Candidates | ArsonMod/Fire/FireManager.cs:169-184 | the candidate list never repeats a room |
| FireEngine.CandidatesExact | ArsonMod/Fire/FireManager.cs:169-184 | the candidates are exactly the Safe rooms next to a burning room |
| FireEngine.SpreadTarget | ArsonMod/Fire/FireManager.cs:186-190 | no target exactly when there is no candidate; otherwise the target is a candidate |
| FireEngine.SpreadTargetIsLeastCandidate | ArsonMod/Fire/FireManager.cs:186-190 | the target is the candidate that comes first under the string order |
| FireEngine.FindBin | ArsonMod/Fire/FireManager.cs:193-208 | finds an unlit bin located in the target room, or none exactly when every bin there is lit or elsewhere |
| FireEngine.SpreadFire | ArsonMod/Fire/FireManager.cs:167-233 | a spread step keeps the engine well formed |
| FireEngine.SpreadFireEffect | ArsonMod/Fire/FireManager.cs:167-233 | with no candidate nothing happens; otherwise the least candidate is announced last, a room with no unlit bin burns at once, a lit bin whose fire the bin hook relays sets the room burning, and a bin that is not lit (no local player) or whose fire is not relayed leaves the engine unchanged |
| FireEngine.WinStep | ArsonMod/Fire/FireManager.cs:102-134 | the countdown touches only the three win fields |
| FireEngine.Update | ArsonMod/Fire/FireManager.cs:89-137 | nothing happens while no fire burns, while paused, or once won |
| FireEngine.SpreadPhase | ArsonMod/Fire/FireManager.cs:94-100 | the spread half of a frame leaves the countdown alone and never announces a win |
| FireEngine.SpreadFrame | ArsonMod/Fire/FireManager.cs:167-233 | a spread step leaves the countdown, pause flag, graph and room order alone |
| FireEngine.SpreadNeverWins | ArsonMod/Fire/FireManager.cs:167-233 | a spread step never announces a win |
| FireEngine.WinStepCountdown | ArsonMod/Fire/FireManager.cs:102-134 | the countdown runs exactly while enough rooms burn and the round is not won; dropping below the threshold resets it; the win is announced exactly on the tick that sets the flag |
| FireEngine.UpdateWinCountdown | ArsonMod/Fire/FireManager.cs:89-134 | after an active frame the countdown runs exactly while enough rooms burn and the round is not won, it resets below the threshold, and a frame announces the win at most once, exactly when it sets the flag |
| FireEngine.UpdateWinTimerAccumulates | ArsonMod/Fire/FireManager.cs:103-114 | at or above the threshold the countdown adds the frame time, starting from zero on the first such frame |
| FireEngine.UpdateSpreadTimer | ArsonMod/Fire/FireManager.cs:95-100 | the spread timer accumulates frame time and restarts at zero when it reaches the interval |
| FireEngine.UpdateSpreads | ArsonMod/Fire/FireManager.cs:95-100 | a frame that brings the timer to the interval makes exactly one spread step's room changes, and its announcements come first; a shorter frame changes no room and can announce only the win |
| FireEngine.WonIsFinal | ArsonMod/Fire/FireManager.cs:91-92 | once the arsonist has won, frames change nothing |
| FireEngine.AllSafe | ArsonMod/Fire/FireManager.cs:253-254 | every tracked room becomes Safe, keeping its burn time |
| FireEngine.ExtinguishRoom | ArsonMod/Fire/FireManager.cs:236-258 | a room that is not burning changes nothing |
| FireEngine.ExtinguishLastRoom | ArsonMod/Fire/FireManager.cs:236-258 | putting out the last burning room resets every room to Safe, ends the fire and the countdown, and raises RoomExtinguished then AllFiresOut; putting out one of several marks only that room Extinguished and lowers the count by one |
| FireEngine.ExtinguishAll | ArsonMod/Fire/FireManager.cs:261-273 | every room becomes Safe, the fire and countdown end, AllFiresOut is raised, and the win flag and spread timer are kept |
| FireEngine.PauseSpread | ArsonMod/Fire/FireManager.cs:303 | sets only the pause flag |
| FireEngine.ResumeSpread | ArsonMod/Fire/FireManager.cs:304 | clears only the pause flag |
| FireEngine.PausedIsFrozen | ArsonMod/Fire/FireManager.cs:91-92 | a paused engine ignores frames, and resuming undoes pausing |
| TaskChain.DefinitionsTable | ArsonMod/Tasks/ArsonTaskChain.cs:33-90 | five definitions indexed 0 to 4; only the last has no decoy and is the finale; task 1 grants the paper stack and task 2 the lighter fluid, which tasks 3 and 4 require; both of the last two are at a trash bin and the finale must use task 3's bin |
| TaskChain.FreshState | ArsonMod/Tasks/ArsonTaskChain.cs:101-105 | a new player state records whether the player is an arsonist and starts at task 0 with no time and no bin |
| TaskChain.InitializePlayer | ArsonMod/Tasks/ArsonTaskChain.cs:98-106 | replaces only this player's state; afterwards progress reads 0 for an arsonist and -1 for anyone else |
| TaskChain.GetProgress | ArsonMod/Tasks/ArsonTaskChain.cs:236-241 | an arsonist's next task index, and -1 for an unknown player or a non-arsonist |
| TaskChain.OnArsonTaskCompleted | ArsonMod/Tasks/ArsonTaskChain.cs:170-215 | an unknown player, a decoy, an out-of-order index or a completion within the cooldown is refused with no change; otherwise the player advances by one and is stamped with the time, task 3 remembers its bin, other tasks broadcast and set the chain in progress, and the finale broadcasts and asks for ignition only on task 3's bin |
| TaskChain.FinaleMismatchIsTerminal | ArsonMod/Tasks/ArsonTaskChain.cs:191-205 | a finale on the wrong bin still advances the player to 5, after which no completion can ignite |
| TaskChain.IgnitionNeedsFinale | ArsonMod/Tasks/ArsonTaskChain.cs:182-209 | ignition is requested only for task 4, by a player at step 4, on the bin task 3 recorded |
| TaskChain.RunAcceptsInOrder | ArsonMod/Tasks/ArsonTaskChain.cs:182-192 | over any sequence of reports, the accepted task indices are consecutive from the starting progress, and progress grows by the number accepted |
| TaskChain.FinaleOnlyAfterFourSteps | ArsonMod/Tasks/ArsonTaskChain.cs:182-192 | from a freshly registered arsonist, reaching step 4 requires tasks 0, 1, 2 and 3 to have been accepted in that order |
| TaskChain.ResetChain | ArsonMod/Tasks/ArsonTaskChain.cs:218-227 | a known player returns to task 0 with no time and no bin and the chain reads Reset; an unknown player changes nothing |
| TaskChain.MakeEntry | ArsonMod/Tasks/ArsonTaskChain.cs:144-156 | the injected entry is `arson_<i>`, is real arson and carries the item requirements for a Slacker, and is a mandatory decoy gate without items for anyone else |
| TaskChain.ExpectedArsonIndices | ArsonMod/Tasks/ArsonTaskChain.cs:133-160 | a Slacker's list carries all five arson entries in order; anyone else's carries the four decoys |
| TaskChain.AppendPlaced | ArsonMod/Tasks/ArsonTaskChain.cs:123-161 | appending an entry at its due position keeps every arson entry after its batch of normal tasks |
| TaskChain.AppendNormal | ArsonMod/Tasks/ArsonTaskChain.cs:128 | appending a normal task extends the normal tasks only |
| TaskChain.AppendArson | ArsonMod/Tasks/ArsonTaskChain.cs:158 | appending an arson entry extends the arson entries only |
| TaskChain.TakeNormals | ArsonMod/Tasks/ArsonTaskChain.cs:126-130 | one batch copies up to two further normal tasks in order |
| TaskChain.TakeArson | ArsonMod/Tasks/ArsonTaskChain.cs:133-160 | one injection adds the next arson entry, or skips the Slacker-only finale for anyone else |
| TaskChain.GenerateTaskList | ArsonMod/Tasks/ArsonTaskChain.cs:112-164 | registers a fresh state for the player; the list keeps all normal tasks in order, carries the expected arson entries in order, and places the arson entry for index i after min(2(i+1), n) normal tasks |
| LobbyUI.Clamp | ArsonMod/UI/ArsonLobbyUI.cs:263 | the result lies within the bounds, equals the input when that already does, and is the nearer bound otherwise |
| LobbyUI.Lookup | ArsonMod/UI/ArsonLobbyUI.cs:263-264 | always yields an entry of the table, the indexed one when the index is in range |
| LobbyUI.DefaultIndicesMatchDefaults | ArsonMod/UI/ArsonLobbyUI.cs:105-123 | the default option of each setting selects the round settings' default value: 20 s spread, 10 s grace, 3 rooms, 1 arsonist |
| LobbyUI.Apply | ArsonMod/UI/ArsonLobbyUI.cs:261-283 | a missing setting object leaves the value alone; a present one selects the clamped table entry |
| LobbyUI.PollSettingValues | ArsonMod/UI/ArsonLobbyUI.cs:244-284 | before injection or without settings nothing changes; otherwise the mode flips, and a toggle is broadcast, exactly when the stored choice differs from the current mode, each present setting takes a value from its table, and the other settings are untouched |
| LobbyUI.PollFreshDefaults | ArsonMod/UI/ArsonLobbyUI.cs:98-127 | polling freshly created settings over the default round settings changes nothing and toggles nothing |
| LobbyUI.PollIdempotent | ArsonMod/UI/ArsonLobbyUI.cs:244-284 | a second poll right after a first changes nothing and toggles nothing |
| LobbyUI.IsArsonTaskEnabled | ArsonMod/UI/ArsonLobbyUI.cs:201-208 | a task counts as enabled unless its setting exists, the index is in range, and its stored choice is Off |
| LobbyUI.Reset | ArsonMod/UI/ArsonLobbyUI.cs:286-295 | afterwards the lobby is not injected and every task reads as enabled |
| LobbyUI.ResetStopsPolling | ArsonMod/UI/ArsonLobbyUI.cs:246 | after a reset, polling changes nothing |
| NetworkSync.Code | ArsonMod/Core/NetworkSync.cs:22-35 | every message kind has a wire code between 1 and 11 |
| NetworkSync.CodeInjective | ArsonMod/Core/NetworkSync.cs:22-35 | no two message kinds share a code |
| NetworkSync.ParseTaskCompleted | ArsonMod/Core/NetworkSync.cs:109-116 | a payload that does not split into exactly two pieces at ':' yields nothing; a parsed player id has no ':' and the index fits in 32 bits |
| NetworkSync.OnMessageReceived | ArsonMod/Core/NetworkSync.cs:72-107 | each message raises at most one event: SettingsChanged raises none, a toggle reports whether its payload is "1", an ignition passes the room on, and a task completion is raised exactly when its payload parses |
| NetworkSync.SendMessage | ArsonMod/Core/NetworkSync.cs:61-67 | sending is delivered locally; every kind except SettingsChanged and an unparsable task completion raises exactly one event |
| NetworkSync.BroadcastArsonTaskCompleted | ArsonMod/Core/NetworkSync.cs:139-140 | the payload is the player id, ':' and the decimal task index |
| NetworkSync.BroadcastArsonModeToggled | ArsonMod/Core/NetworkSync.cs:142-143 | the message is a mode toggle |
| NetworkSync.TaskCompletedRoundTrip | ArsonMod/Core/NetworkSync.cs:109-116 | a completion broadcast for a player id without ':' is received as the same player and index |
| NetworkSync.TaskCompletedColonDropped | ArsonMod/Core/NetworkSync.cs:111-112 | a completion broadcast for a player id containing ':' splits into more than two pieces and is silently dropped |
| NetworkSync.SplitCountPieces | ArsonMod/Core/NetworkSync.cs:111 | splitting yields one more piece than there are separators |
| NetworkSync.SplitCount | ArsonMod/Core/NetworkSync.cs:111-112 | a payload with two separators splits into more than two pieces |
| NetworkSync.ModeToggledRoundTrip | ArsonMod/Core/NetworkSync.cs:100-101 | a toggle broadcast is received with the same flag |
| Text.NatToString | ArsonMod/Core/NetworkSync.cs:140 | formatting yields at least one decimal digit |
| Text.NatToStringValue | ArsonMod/Core/NetworkSync.cs:140 | the digits formatted read back as the same number |
| Text.IntToString | ArsonMod/Core/NetworkSync.cs:140 | a formatted integer is non-empty, ends in a digit and starts with a digit or '-' |
| Text.TrimStart | ArsonMod/Core/NetworkSync.cs:112 | no leading white space remains, and text without it is unchanged |
| Text.TrimEnd | ArsonMod/Core/NetworkSync.cs:112 | a prefix of the input without trailing white space, the input itself when it has none |
| Text.ParseInt | ArsonMod/Core/NetworkSync.cs:112 | a successful parse is a 32-bit integer |
| Text.IntToStringRoundTrip | ArsonMod/Core/NetworkSync.cs:112-114 | a formatted 32-bit integer parses back to itself |
| Text.Split | ArsonMod/Core/NetworkSync.cs:111 | splitting yields at least one piece and no piece holds the separator |
| Text.SplitJoin | ArsonMod/Core/NetworkSync.cs:111 | splitting undoes joining pieces that do not hold the separator |
| Text.JoinSplit | ArsonMod/Core/NetworkSync.cs:111 | joining the pieces with the separator restores the text |
| Delay.Step | ArsonMod/Tasks/SmokeDetectorTask.cs:47-57 | a stopped delay stays as it is; a running one adds the frame time and fires, stopping, exactly when the limit is reached |
| Delay.Fires | ArsonMod/Tasks/SmokeDetectorTask.cs:47-57 | one fired flag per frame of the run |
| Delay.ReachedShift | ArsonMod/Tasks/SmokeDetectorTask.cs:47-57 | whether frame j reaches the limit is unchanged by first absorbing frame 0 into the elapsed time |
| Delay.FiresAtThreshold | ArsonMod/Tasks/SmokeDetectorTask.cs:47-57 | over any run of frames, a running delay fires on frame k exactly when k is the first frame whose accumulated time reaches the limit |
| Delay.NeverAgain | ArsonMod/Tasks/SmokeDetectorTask.cs:49 | a stopped delay never fires |
| Delay.FiresOnce | ArsonMod/Tasks/SmokeDetectorTask.cs:47-57 | a delay fires at most once |
| Interaction.Start | ArsonMod/Tasks/SmokeDetectorTask.cs:21-27 | a station in use ignores a second player; a free one becomes busy for this player with its timer at zero |
| Interaction.Advance | ArsonMod/Tasks/SmokeDetectorTask.cs:47-61 | an idle station ignores frames; a busy one completes exactly when its timer reaches the duration, which frees it and clears the user while reporting who used it |
| Interaction.Completions | ArsonMod/Tasks/SmokeDetectorTask.cs:47-57 | one completion flag per frame of the run |
| Interaction.CompletionsFollowDelay | ArsonMod/Tasks/SmokeDetectorTask.cs:47-57 | a station's completions over a run of frames are exactly the firings of a delay with the station's timer |
| Interaction.CompletesAtDuration | ArsonMod/Tasks/SmokeDetectorTask.cs:21-57 | after a start on a free station, the use completes on the first frame whose accumulated time reaches the duration, and never again after that |
| SmokeDetectorTask.StartInteraction | ArsonMod/Tasks/SmokeDetectorTask.cs:21-27 | a busy detector ignores the second player; a free one becomes busy for this player from zero, and whether it is jammed never changes |
| SmokeDetectorTask.CompleteInteraction | ArsonMod/Tasks/SmokeDetectorTask.cs:59-77 | an arsonist jams the detector and reports task 0 to the chain; anyone else changes nothing |
| SmokeDetectorTask.Update | ArsonMod/Tasks/SmokeDetectorTask.cs:47-57 | before four seconds nothing but the timer moves; at four seconds the station is free again; the detector is jammed afterwards exactly when it was or an arsonist just finished; arsonists and inventories are untouched |
| SmokeDetectorTask.OnPlayerProximity | ArsonMod/Tasks/SmokeDetectorTask.cs:104-115 | a clue is shown, to that player only, exactly when the detector is jammed and the player is not an arsonist |
| PrintDocumentsTask.NewPrinter | ArsonMod/Tasks/PrintDocumentsTask.cs:13-22 | a new printer has no excessive job, a last-job time of -1 and is free |
| PrintDocumentsTask.StartInteraction | ArsonMod/Tasks/PrintDocumentsTask.cs:24-30 | a busy printer ignores the second player; a free one becomes busy for this player from zero; nothing else changes |
| PrintDocumentsTask.CompleteInteraction | ArsonMod/Tasks/PrintDocumentsTask.cs:50-71 | an arsonist marks the printer, stamps the time, gains the paper stack (no other holding changes) and reports task 1; anyone else changes nothing |
| PrintDocumentsTask.Update | ArsonMod/Tasks/PrintDocumentsTask.cs:38-48 | before five seconds only the timer moves; at five seconds the printer is free; it holds an excessive job afterwards exactly when it did or an arsonist just finished |
| PrintDocumentsTask.GetPrintLogEntry | ArsonMod/Tasks/PrintDocumentsTask.cs:90-96 | no entry without an excessive job; otherwise `PRINT JOB - <pages> pages` |
| StealFluidTask.StartInteraction | ArsonMod/Tasks/StealFluidTask.cs:20-26 | a busy closet ignores the second player; a free one becomes busy for this player from zero |
| StealFluidTask.CompleteInteraction | ArsonMod/Tasks/StealFluidTask.cs:46-62 | an arsonist gains the lighter fluid (no other holding changes) and reports task 2; anyone else changes nothing; the closet itself never changes |
| StealFluidTask.Update | ArsonMod/Tasks/StealFluidTask.cs:34-44 | before four seconds the world is untouched; at four seconds the closet is free; a non-arsonist user never changes the world |
| StuffTrashBinTask.StartInteraction | ArsonMod/Tasks/StuffTrashBinTask.cs:32-38 | a busy bin ignores the second player; a free one becomes busy for this player from zero |
| StuffTrashBinTask.CompleteInteraction | ArsonMod/Tasks/StuffTrashBinTask.cs:58-77 | an arsonist stuffs the bin, no longer holds the paper stack (no other holding changes) and reports task 3 with this bin, whether or not the chain accepts; anyone else changes nothing |
| StuffTrashBinTask.Update | ArsonMod/Tasks/StuffTrashBinTask.cs:46-56 | before three seconds only the timer moves; at three seconds the bin is free; it is stuffed afterwards exactly when it was or an arsonist just finished |
| StuffTrashBinTask.ResetBin | ArsonMod/Tasks/StuffTrashBinTask.cs:116-121 | the bin is no longer stuffed and keeps its id and use |
| TossCigaretteTask.CanTrigger | ArsonMod/Tasks/TossCigaretteTask.cs:44-60 | holds exactly when the linked bin exists and is stuffed, the player is an arsonist whose chain progress is at least 4, and the cigarette is lit |
| TossCigaretteTask.PromptStep | ArsonMod/Tasks/TossCigaretteTask.cs:62-92 | the prompt shows exactly when an eligible player is in range, no prompt is up and the cooldown has run out, which restarts the cooldown at four seconds; otherwise the cooldown runs down and walking out of range clears the prompt |
| TossCigaretteTask.Update | ArsonMod/Tasks/TossCigaretteTask.cs:62-92 | a frame changes only the prompt state and shows the prompt exactly when the prompt step does |
| TossCigaretteTask.PromptRun | ArsonMod/Tasks/TossCigaretteTask.cs:62-92 | one prompt flag per frame of the run |
| TossCigaretteTask.FirstPrompt | ArsonMod/Tasks/TossCigaretteTask.cs:64-90 | the first prompt of a run comes only once the frames have used up the cooldown and, if a prompt was already up, after the player has left the bin's range |
| TossCigaretteTask.PromptSpacing | ArsonMod/Tasks/TossCigaretteTask.cs:78-91 | after a prompt, the next one comes at least four seconds later and only after the player has walked out of range |
| TossCigaretteTask.TriggerFire | ArsonMod/Tasks/TossCigaretteTask.cs:98-131 | nothing happens unless the bin is stuffed, the player is an arsonist at the finale with a lit cigarette, and the game bin, a local player and its controller exist; otherwise the bin fire is requested, the chain hears of task 4 with this bin, the bin's room (or "Unknown") ignites exactly when the chain accepts, and the cigarette flag is cleared |
| TossCigaretteTask.WrongBinStillLit | ArsonMod/Tasks/TossCigaretteTask.cs:115-125 | a finale at a bin other than task 3's still requests the bin's fire, but the round's ignition does not run |
| TaskInjector.RequestInjection | ArsonMod/Tasks/ArsonTaskInjector.cs:87-91 | a request arms the resolution delay from zero and touches nothing else |
| TaskInjector.GetCurrentTaskDef | ArsonMod/Tasks/ArsonTaskInjector.cs:884-891 | a definition exists exactly when there is a chain and the player's progress indexes the table, and it is the definition at that progress |
| TaskInjector.FormatItemName | ArsonMod/Tasks/ArsonTaskInjector.cs:893-901 | the paper stack reads "printed documents", the lighter fluid "lighter fluid", any other id itself |
| TaskInjector.AlarmIndex | ArsonMod/Tasks/ArsonTaskInjector.cs:945 | `((h % n) + n) % n` under truncating remainder always lands in [0, n) and equals the mathematical residue of h |
| TaskInjector.AlarmIndexIsMod | ArsonMod/Tasks/ArsonTaskInjector.cs:945 | the double truncating remainder agrees with the Euclidean remainder for every hash, negative ones included |
| TaskInjector.SelectAlarm | ArsonMod/Tasks/ArsonTaskInjector.cs:939-950 | the alarm index is always in range, and a remembered index still in range is kept |
| TaskInjector.FirstWhere | ArsonMod/Tasks/ArsonTaskInjector.cs:976-998 | finds the first object satisfying the test, or none exactly when none does |
| TaskInjector.FindTrashBinTarget | ArsonMod/Tasks/ArsonTaskInjector.cs:968-1005 | none exactly when the scene has no bin; the bin named by task 3 when present; otherwise the first bin in the fire alarm's room when there is one; otherwise the first bin |
| TaskInjector.FindTargetObject | ArsonMod/Tasks/ArsonTaskInjector.cs:916-960 | the printer task targets the printer, the closet task the first shelf, the bin tasks the bin search, and the smoke detector task an alarm at an in-range index that is kept once chosen; only the smoke detector task can change the alarm index |
| TaskInjector.ResolveCurrentArsonTask | ArsonMod/Tasks/ArsonTaskInjector.cs:641-724 | nothing happens without a local arsonist and a chain; progress outside the table clears the task; the task resolved last time or one switched off in the lobby is left alone; otherwise the task's name, index and target are set, and a smoke detector target records its room |
| TaskInjector.Update | ArsonMod/Tasks/ArsonTaskInjector.cs:93-102 | without a request nothing changes; a request waits half a second of frame time and then resolves once, clearing the request |
| TaskInjector.ResolvesOnceAfterRequest | ArsonMod/Tasks/ArsonTaskInjector.cs:87-102 | after a request, a run of frames resolves exactly at the first frame whose accumulated delay reaches half a second, and never again |
| TaskInjector.ResolveKeepsRequest | ArsonMod/Tasks/ArsonTaskInjector.cs:641-724 | resolution never touches the pending request or its delay |
| TaskInjector.OnCurrentTaskCompleted | ArsonMod/Tasks/ArsonTaskInjector.cs:903-914 | the current task, its target and the last resolved index are forgotten and the alarm interaction is reset; the remembered alarm, room and bin are kept and no new request is made |
| TaskInjector.Reset | ArsonMod/Tasks/ArsonTaskInjector.cs:1059-1074 | back to a new game: no request, no task, no remembered index, alarm, room or bin |
| TaskInjector.ResetRedrawsAlarm | ArsonMod/Tasks/ArsonTaskInjector.cs:939-945 | after a reset the next smoke detector lookup draws the alarm afresh from the hash |
| TaskInjector.CompleteTask | ArsonMod/Tasks/ArsonTaskInjector.cs:533-578 | without a chain or with progress outside the table nothing happens; otherwise the task's item is granted and its required item consumed before the chain hears of the completion, a bin task reports and remembers the target's name, the finale sets the target bin alight (clearing the cigarette) exactly when the chain asks for ignition and the target is a bin the local player can reach, and the current task is forgotten whatever the chain answers |
| TaskInjector.GrantedEvenIfRefused | ArsonMod/Tasks/ArsonTaskInjector.cs:541-563 | the printer task's paper stack is granted even when the chain refuses the completion, for example within the cooldown |
| TaskInjector.OnInteractionComplete | ArsonMod/Tasks/ArsonTaskInjector.cs:488-527 | without a local player or a current task nothing happens; a fire is only ever set by a player at the finale |
| FireNotifications.FormatRoomName | ArsonMod/UI/FireNotifications.cs:119-125 | splitting camel case inserts exactly one space per lower-then-upper pair and keeps the first character |
| FireNotifications.FormatRoomNamePositions | ArsonMod/UI/FireNotifications.cs:119-125 | every character of the room id survives, in order, and each lower-then-upper pair gets a space right after its lower-case letter |
| FireNotifications.FormatNoPairsUnchanged | ArsonMod/UI/FireNotifications.cs:119-125 | a room id without a lower-then-upper pair is displayed as it is |
| FireNotifications.FormatLeavesNoPairs | ArsonMod/UI/FireNotifications.cs:119-125 | the formatted name has no lower-then-upper pair left |
| FireNotifications.FormatIdempotent | ArsonMod/UI/FireNotifications.cs:119-125 | formatting an already formatted name changes nothing |
| FireNotifications.Show | ArsonMod/UI/FireNotifications.cs:17-22 | a message reaches the screen only when a UI manager exists; the alarm is untouched |
| FireNotifications.ShowIgnitionAlert | ArsonMod/UI/FireNotifications.cs:28-39 | the ignition event names the formatted room and the fire alarm is on afterwards, even without a UI manager |
| FireNotifications.ShowSpreadAlert | ArsonMod/UI/FireNotifications.cs:41-49 | the spread notification names the formatted room and leaves the alarm alone |
| FireNotifications.ShowExtinguishedAlert | ArsonMod/UI/FireNotifications.cs:51-59 | the extinguished notification names the formatted room and leaves the alarm alone |
| FireNotifications.ShowAllFiresOutAlert | ArsonMod/UI/FireNotifications.cs:61-72 | the all-clear event is shown and the fire alarm is off afterwards |
| FireNotifications.AlarmFollowsLastAlert | ArsonMod/UI/FireNotifications.cs:38-71 | the alarm state is decided by whichever of ignition and all-clear came last |
| FireNotifications.ShowClue | ArsonMod/UI/FireNotifications.cs:87-100 | a targeted clue is shown only on the target's own client, an untargeted one everywhere, always as a hint prefixed "[Clue] " |
| FireNotifications.JoinWithLength | ArsonMod/UI/FireNotifications.cs:80 | the joined player list holds every id plus one separator between neighbours, and starts with the first id |
| FireNotifications.ProximityClue | ArsonMod/UI/FireNotifications.cs:78-85 | the proximity clue has no target, so every client shows it |
| FireNotifications.TamperedDetectorClue | ArsonMod/UI/FireNotifications.cs:102-105 | the tampered-detector clue is shown on exactly the named player's client |
| FireNotifications.ProximityClueShownToAll | ArsonMod/UI/FireNotifications.cs:78-100 | with a UI manager any client appends the proximity hint, whose text opens with the room's formatted name |
| FireExtinguisher.New | ArsonMod/Items/FireExtinguisher.cs:33-43 | a fresh extinguisher hangs on the wall with the configured charges, unused and not depleted |
| FireExtinguisher.TryPickUp | ArsonMod/Items/FireExtinguisher.cs:60-91 | pick-up fails, changing nothing and telling no one, exactly when the extinguisher is held, depleted or empty; otherwise the player holds it and the pick-up is broadcast |
| FireExtinguisher.Drop | ArsonMod/Items/FireExtinguisher.cs:94-118 | only a held extinguisher is dropped, and afterwards nobody holds it; a spray in progress goes on |
| FireExtinguisher.PickUpThenDrop | ArsonMod/Items/FireExtinguisher.cs:60-118 | picking up and dropping puts the extinguisher back exactly as it was on the wall |
| FireExtinguisher.StartUsing | ArsonMod/Items/FireExtinguisher.cs:124-156 | spraying starts exactly when the extinguisher is held and charged and the room is burning, with a fresh timer aimed at that room |
| FireExtinguisher.StopUsing | ArsonMod/Items/FireExtinguisher.cs:159-174 | afterwards nothing is sprayed and no room is targeted |
| FireExtinguisher.StartThenStop | ArsonMod/Items/FireExtinguisher.cs:124-174 | stopping undoes any start, and only a held, undepleted extinguisher can start |
| FireExtinguisher.GetUseProgress | ArsonMod/Items/FireExtinguisher.cs:253-257 | zero when idle; while spraying it reaches one exactly when the use time reaches the extinguish time |
| FireExtinguisher.GetChargeRatio | ArsonMod/Items/FireExtinguisher.cs:247-251 | the remaining charges as a fraction of the configured charges, zero when that setting is not positive |
| FireExtinguisher.Deplete | ArsonMod/Items/FireExtinguisher.cs:210-221 | a depleted extinguisher is dropped with its respawn timer reset and the depletion is broadcast |
| FireExtinguisher.Update | ArsonMod/Items/FireExtinguisher.cs:45-57 | one frame keeps the extinguisher's and the fire engine's invariants |
| FireExtinguisher.DepletedOnlyRespawns | ArsonMod/Items/FireExtinguisher.cs:223-245 | while depleted only the respawn timer runs; at the respawn time the charges are full again and the respawn is broadcast |
| FireExtinguisher.CompletedUse | ArsonMod/Items/FireExtinguisher.cs:176-208 | a finished spray puts out its room once and spends exactly one charge; it depletes exactly when no charge is left, dropping the extinguisher and broadcasting the depletion |
| FireExtinguisher.UnfinishedUse | ArsonMod/Items/FireExtinguisher.cs:176-190 | a spray short of the extinguish time only advances its timer |
| ProximityTracker.Positions | ArsonMod/Clues/ProximityTracker.cs:37-52 | one sample per player who is in a room, stamped with the current time; players between rooms leave none |
| ProximityTracker.Prune | ArsonMod/Clues/ProximityTracker.cs:54-58 | exactly the samples no older than the thirty-second window survive |
| ProximityTracker.Update | ArsonMod/Clues/ProximityTracker.cs:27-35 | below the two-second interval only the timer advances; at the interval the timer restarts |
| ProximityTracker.SamplingFrame | ArsonMod/Clues/ProximityTracker.cs:27-58 | after a sampling frame the buffer holds exactly the earlier samples still in the window plus the new positions, and every sample lies inside the window |
| ProximityTracker.Distinct | ArsonMod/Clues/ProximityTracker.cs:77 | the distinct ids: no repeats, and the same ids as the input |
| ProximityTracker.PlayersIn | ArsonMod/Clues/ProximityTracker.cs:74-76 | the players of exactly the samples taken in the origin room or next to it |
| ProximityTracker.NearbyPlayerIds | ArsonMod/Clues/ProximityTracker.cs:71-78 | the players seen in the origin room or one of its listed neighbours, each once |
| ProximityTracker.NameOf | ArsonMod/Clues/ProximityTracker.cs:85-95 | the user name of the first player listed with the id, or the id itself when nobody has it |
| ProximityTracker.Names | ArsonMod/Clues/ProximityTracker.cs:84-97 | one display name per nearby id, in the same order |
| ProximityTracker.OnFireStarted | ArsonMod/Clues/ProximityTracker.cs:64-100 | a clue appears exactly when the local player is a Specialist and some sample lies in or next to the origin room, and it lists the names of the nearby players |
| SmokeDetectorClue.NumberHasNoUnderscore | ArsonMod/Clues/SmokeDetectorClue.cs:44 | a formatted instance id never contains the underscore that separates it from the player id |
| SmokeDetectorClue.LastPieceOfKey | ArsonMod/Clues/SmokeDetectorClue.cs:44 | the text after a key's last underscore is the instance id it was built from |
| SmokeDetectorClue.IntToStringInjective | ArsonMod/Clues/SmokeDetectorClue.cs:44 | distinct instance ids format differently |
| SmokeDetectorClue.KeyInjective | ArsonMod/Clues/SmokeDetectorClue.cs:44 | two player–detector pairs share a cooldown key only when they are the same pair, even for player ids containing underscores |
| SmokeDetectorClue.VisitDetectors | ArsonMod/Clues/SmokeDetectorClue.cs:37-56 | one player's pass over the detectors only ever writes the current time, and every clue it raises is the tampered-detector clue for that player, who is local and no arsonist |
| SmokeDetectorClue.VisitDetectorsKeeps | ArsonMod/Clues/SmokeDetectorClue.cs:45-47 | a key still inside its sixty-second cooldown keeps its time |
| SmokeDetectorClue.VisitDetectorsStampsDue | ArsonMod/Clues/SmokeDetectorClue.cs:39-49 | every jammed detector near a non-arsonist player whose cooldown has passed is stamped with the current time |
| SmokeDetectorClue.VisitDetectorsOnlyEligible | ArsonMod/Clues/SmokeDetectorClue.cs:33-49 | only keys of jammed detectors near a non-arsonist player are ever written |
| SmokeDetectorClue.VisitPlayers | ArsonMod/Clues/SmokeDetectorClue.cs:31-57 | the pass over all players only ever writes the current time, and every clue it raises targets a local non-arsonist player |
| SmokeDetectorClue.VisitPlayersKeeps | ArsonMod/Clues/SmokeDetectorClue.cs:31-57 | across all players, a key inside its cooldown keeps its time |
| SmokeDetectorClue.VisitPlayersStampsDue | ArsonMod/Clues/SmokeDetectorClue.cs:31-57 | across all players, every eligible pair whose cooldown has passed is stamped with the current time |
| SmokeDetectorClue.VisitPlayersOnlyEligible | ArsonMod/Clues/SmokeDetectorClue.cs:31-57 | across all players, only keys of eligible pairs are written |
| SmokeDetectorClue.Update | ArsonMod/Clues/SmokeDetectorClue.cs:25-58 | with no detectors nothing happens; otherwise only the current time is written and no clue ever targets an arsonist |
| SmokeDetectorClue.CooldownHolds | ArsonMod/Clues/SmokeDetectorClue.cs:45-47 | a pair notified less than sixty seconds ago is not notified again |
| SmokeDetectorClue.EligiblePairsStamped | ArsonMod/Clues/SmokeDetectorClue.cs:39-49 | a non-arsonist within range of a jammed detector, outside the cooldown, has that pair stamped with the current time |
| SmokeDetectorClue.VisitDetectorsShowsDue | ArsonMod/Clues/SmokeDetectorClue.cs:37-55 | for one player, a local non-arsonist near a jammed detector whose cooldown has passed is shown the tampered-detector clue |
| SmokeDetectorClue.VisitPlayersShowsDue | ArsonMod/Clues/SmokeDetectorClue.cs:31-57 | across all players, such a player is shown the clue, provided no earlier entry of the list has the same id |
| SmokeDetectorClue.DuePairsSeeClue | ArsonMod/Clues/SmokeDetectorClue.cs:25-58 | a frame shows the tampered-detector clue to every local non-arsonist near a jammed detector whose cooldown has passed |
| SmokeDetectorClue.OnlyEligibleStamped | ArsonMod/Clues/SmokeDetectorClue.cs:33-49 | any key the frame writes belongs to a non-arsonist near a jammed detector |
| SmokeDetectorClue.CluesOnlyForLocalNonArsonists | ArsonMod/Clues/SmokeDetectorClue.cs:51-55 | each clue shown is addressed to a local player who is not an arsonist |
| PrintLogClue.LogLines | ArsonMod/Clues/PrintLogClue.cs:40-57 | both logs have a header and four jobs starting with the three-page job; without a suspicious entry the jobs are the normal ones, with one it is the second job |
| PrintLogClue.FindPrinter | ArsonMod/Clues/PrintLogClue.cs:26-28 | the first printer with the id, and none exactly when no printer has it |
| PrintLogClue.GetPrintLogForPrinter | ArsonMod/Clues/PrintLogClue.cs:24-38 | an unknown printer or one without an excessive job shows the normal log; a printer that printed excessively shows its job among the normal ones |
| PrintLogClue.NumberHasNoNewline | ArsonMod/Clues/PrintLogClue.cs:54 | the page count never breaks the log's line structure |
| PrintLogClue.LinesRoundTrip | ArsonMod/Clues/PrintLogClue.cs:40-57 | splitting a displayed log at its line breaks gives back its lines when the entry has no line break of its own |
| PrintLogClue.LogShape | ArsonMod/Clues/PrintLogClue.cs:24-57 | the displayed log reads as the five expected lines for the printer's state |
| PrintLogClue.ExcessiveEntryIsOneLine | ArsonMod/Tasks/PrintDocumentsTask.cs:90-96 | the excessive job's entry is one non-empty line starting with "P" |
| PrintLogClue.SuspiciousLineIffExcessive | ArsonMod/Clues/PrintLogClue.cs:24-57 | the log's third line is the excessive job exactly when the printer with that id printed excessively |
| PrintLogClue.LogIsLines | ArsonMod/Clues/PrintLogClue.cs:24-57 | the displayed log is its lines joined by line breaks |
| PrintLogClue.JobLineDiffers | ArsonMod/Clues/PrintLogClue.cs:43-54 | no normal job line can be mistaken for an excessive job's line |
| ArsonModEntry.Loaded | ArsonMod/Core/ArsonMod.cs:29-37 | the loaded mod starts with default settings, the mode off and no managers |
| ArsonModEntry.OnSceneWasLoaded | ArsonMod/Core/ArsonMod.cs:39-54 | with the mode off a scene load changes nothing; with it on, a fresh fire engine, task chain and proximity tracker replace the old ones and nothing else changes |
| ArsonModEntry.BeginArsonistSelection | ArsonMod/Core/ArsonMod.cs:95-99 | a selection is pending with its wait restarted |
| ArsonModEntry.InitializeAll | ArsonMod/Core/ArsonMod.cs:132-134 | every listed player gets a fresh chain state for their role; other players' states are untouched |
| ArsonModEntry.Selected | ArsonMod/Core/ArsonMod.cs:114 | the selection keeps the arsonist set duplicate-free |
| ArsonModEntry.Register | ArsonMod/Core/ArsonMod.cs:128-145 | without a chain the registration of a non-empty player list aborts with nothing changed; otherwise every player is initialised, and an injection is requested exactly for a local arsonist |
| ArsonModEntry.RunArsonistSelection | ArsonMod/Core/ArsonMod.cs:101-146 | the selection's arsonist set is kept either way; with no arsonist at all the run stops there, otherwise the players are registered |
| ArsonModEntry.RegistersEveryPlayer | ArsonMod/Core/ArsonMod.cs:132-134 | each listed player's chain state afterwards is the fresh one for their role |
| ArsonModEntry.OnFireIgnited | ArsonMod/Core/ArsonMod.cs:154-161 | the fire manager, if any, ignites the room, the fire alarm is on, and nothing but the engine and the display changes |
| ArsonModEntry.UnknownRoomIgnitesNothing | ArsonMod/Core/ArsonMod.cs:154-161 | a room the engine does not know leaves the fire state as it was |
| ArsonModEntry.AnnounceOne | ArsonMod/Core/ArsonMod.cs:192-195 | one engine event changes only the engine, the display and the screens; only a win adds a screen, the win screen |
| ArsonModEntry.Announce | ArsonMod/Core/ArsonMod.cs:192-195 | earlier screens stay; the win screen is shown exactly when the events include the arsonist's win |
| ArsonModEntry.SelectionStage | ArsonMod/Core/ArsonMod.cs:72-81 | a pending selection runs once players are listed or after five seconds, and is no longer pending; until then only its wait grows |
| ArsonModEntry.ManagerStage | ArsonMod/Core/ArsonMod.cs:83-86 | the per-frame managers never touch the mode, the settings, the pending selection or the arsonist set |
| ArsonModEntry.OnUpdate | ArsonMod/Core/ArsonMod.cs:56-93 | a frame keeps the arsonist set duplicate-free and the fire engine valid, and ends in the mode the lobby poll leaves |
| ArsonModEntry.ToggleAnnouncesNewMode | ArsonMod/UI/ArsonLobbyUI.cs:251-258 | a frame broadcasts a mode toggle exactly when it changes the mode, at most once, and peers receive the new mode |
| ArsonModEntry.InactiveFrameOnlyPolls | ArsonMod/Core/ArsonMod.cs:60-63 | with the mode off a frame only takes the lobby's settings and mode |
| ArsonModEntry.PendingSelectionRunsOnce | ArsonMod/Core/ArsonMod.cs:72-81 | with the mode on a pending selection runs at most once and a waiting one leaves the arsonists alone |
| ArsonModEntry.OnMeetingStarted | ArsonMod/Core/ArsonMod.cs:163-166 | a meeting pauses the spread and changes nothing else |
| ArsonModEntry.OnMeetingEnded | ArsonMod/Core/ArsonMod.cs:168-190 | the end of a meeting keeps the mod's invariants |
| ArsonModEntry.MeetingEndOutcome | ArsonMod/Core/ArsonMod.cs:168-190 | the spread resumes; firing an arsonist puts out every fire and shows the caught screen, firing anyone else changes nothing more |
| HarmonyPatches.RoundStart | ArsonMod/Core/HarmonyPatches.cs:56-82 | with the mode on a round start re-initialises the fire engine over the scene's rooms, empties the arsonists and every inventory, clears the lobby injection, the cigarette and the injector's request, and leaves a selection pending; with it off nothing changes |
| HarmonyPatches.MeetingStart | ArsonMod/Core/HarmonyPatches.cs:92-102 | only with the mode on does a meeting pause the fire |
| HarmonyPatches.MeetingEnd | ArsonMod/Core/HarmonyPatches.cs:112-131 | only with the mode on does the end of a meeting resume the fire and judge the fired player |
| HarmonyPatches.BinFire | ArsonMod/Core/HarmonyPatches.cs:167-199 | a bin catching fire ignites its room, or the room named "Unknown" when the bin is in none; with the mode off nothing changes |
| HarmonyPatches.BinOutAlarm | ArsonMod/Core/HarmonyPatches.cs:183-196 | a bin going out puts out its room; the alarm goes off when no room burns any more and is otherwise left as it was |
| HarmonyPatches.TaskAssignment | ArsonMod/Core/HarmonyPatches.cs:252-281 | an injection is requested exactly for a local arsonist whose next chain task exists and is enabled in the lobby; nothing else changes |
| HarmonyPatches.Keep | ArsonMod/Core/HarmonyPatches.cs:304-313 | the filtered pool is no longer than the original |
| HarmonyPatches.KeepMembers | ArsonMod/Core/HarmonyPatches.cs:304-313 | an entry survives exactly when it was in the pool and is not the built-in fire task |
| HarmonyPatches.KeepClean | ArsonMod/Core/HarmonyPatches.cs:304-313 | a pool without the built-in fire task is left as it is |
| HarmonyPatches.KeepIdempotent | ArsonMod/Core/HarmonyPatches.cs:304-313 | filtering twice is filtering once |
| HarmonyPatches.FilterTaskQueue | ArsonMod/Core/HarmonyPatches.cs:291-316 | the built-in fire task is removed from an existing pool exactly while the mode is on and the chain is not completed |
| HarmonyPatches.CigaretteSmoked | ArsonMod/Core/HarmonyPatches.cs:328-345 | the cigarette flag is set when, and is only ever newly set when, an arsonist smokes with the mode on and a local player present |
| HarmonyPatches.CigaretteUntilRoundStart | ArsonMod/Core/HarmonyPatches.cs:70-74 | whatever was smoked, the next round starts with no lit cigarette |

## Left out

- Logging (`FileLogger.cs`, `MelonLogger` calls) is left out; it has no effect on the state.
- Particles, lights, audio and flicker (`FireEffects.cs`) are left out; they are presentation only.
- The win and caught screens (`ArsonWinScreen.cs`) are left out. The model only records which screen was shown.
- The game's UI manager calls are not modelled as calls. `FireNotifications.Display` records the messages and the alarm flag, and `ui` says whether a UI manager exists.
- `FireManager.ApplyBurningRoomEffects` is left out; it only shows hints to players standing in burning rooms.
- `ArsonLobbyUI.InjectSettings`, `InjectTaskSettings` and `CacheSettingReferences` are left out; they build game UI objects. The lobby model starts from the settings objects they would create.
- The player-access lookups `GetRoomForPosition`, `GetAllPlayers` and `GetLocalPlayer` are inputs, not operations. They are Unity geometry and scene discovery: room containment, bins in a room, the player list and the local player.
- Parts of `ArsonTaskInjector` are left out because they are Unity geometry and HUD manipulation:
  - the raycast, dot-product and distance checks of the fire-alarm interaction;
  - the task marker and task-list UI injection (`InjectFireAlarmUI`, `ShowTaskMarker`, `UpdateMarkerPosition`, `IsTargetObject`).
- Harmony patches 4, 6, 7, 11, 12 and 13 are left out; they only log or manipulate the HUD. Patches 2 and 3 are modelled as routing only.
- The game's RPCs (`RpcEnableFire`, `CmdEnableFire`) and the network transport are not modelled. A lit bin is a `BinLit` event, and outgoing messages are values in the results.
- Messages other clients receive (`NetworkSync.OnMessageReceived`) are decoded into events, but the model does not feed them back into a second client's state.
- Cosmetic randomness (page counts, paper placement) is a parameter. The page count shown in the print log is an argument.
- `System.Random`, `string.GetHashCode` and `Guid.NewGuid` are parameters, not reproductions of their algorithms. The selection's properties hold for any generator whose draws lie in bounds.
- Floating-point rounding is not modelled. Times, intervals and the 1.2 spread factor are exact reals.
- Exceptions swallowed by the per-frame `try`/`catch` are modelled only where a missing manager matters to the outcome. That is a missing task chain during arsonist registration (`ArsonModEntry.Register`). The task stations assume the chain the code dereferences exists.
- FireEngine.SpreadFire: its own contract states only that the engine stays well formed. The spread's outcome is stated by `FireEngine.SpreadFireEffect`.
- FireEngine.Update: its own contract states only the idle cases. The countdown and spread-timer behaviour is in `FireEngine.UpdateWinCountdown`, `FireEngine.UpdateWinTimerAccumulates`, `FireEngine.UpdateSpreadTimer` and `FireEngine.UpdateSpreads`.
- FireExtinguisher.Update: its own contract states only the invariants. The frame's behaviour is in `FireExtinguisher.DepletedOnlyRespawns`, `FireExtinguisher.CompletedUse` and `FireExtinguisher.UnfinishedUse`.
- FireExtinguisher.GetUseProgress: requires a non-zero extinguish time while in use. The code would divide by zero there and return infinity or NaN, which exact reals cannot express.
- StealFluidTask.Update: does not restate what a completion grants. That is the contract of `StealFluidTask.CompleteInteraction`.
- TaskInjector.OnInteractionComplete: states only the guard cases and that fire needs the finale. The completion itself is the contract of `TaskInjector.CompleteTask`.
- ArsonModEntry.OnUpdate and ArsonModEntry.OnMeetingEnded: their own contracts state only the invariants and the resulting mode. The behaviour is in `ArsonModEntry.InactiveFrameOnlyPolls`, `ArsonModEntry.PendingSelectionRunsOnce`, `ArsonModEntry.ManagerStage`, `ArsonModEntry.ToggleAnnouncesNewMode` and `ArsonModEntry.MeetingEndOutcome`.
- PlayerAccess.SelectionDeterministic: holds for one hash function and one name comparer. It does not promise that two clients agree. `string.GetHashCode` is randomised per process and `OrderBy` on strings uses the current culture, so clients agree only when those match. It also takes the comparer to be a total order in which distinct ids never compare equal; a culture comparer that ties two distinct ids would leave them in input order.
- SmokeDetectorClue.DuePairsSeeClue: requires that no earlier entry of the player list has the same id. An earlier entry with that id stamps the shared key first, so the later entry may be inside the cooldown.

## Where the code and its documentation differ

The model follows the code in each case below.

- **Finale on the wrong bin.** The documented behaviour rejects it without advancing. The code advances the player's next index to 5 before it compares the bins, then returns false without broadcasting (`ArsonMod/Tasks/ArsonTaskChain.cs:191-209`). `TaskChain.FinaleMismatchIsTerminal` states this.
- **Extinguishing everything.** `ExtinguishAll` is documented as not raising the all-clear. The code raises `OnAllFiresOut` (`ArsonMod/Fire/FireManager.cs:261-273`).
- **Re-initialising the engine.** `FireManager.Initialize` does not clear the remembered origin room (`ArsonMod/Fire/FireManager.cs:65-87`).
- **Completing an index past the finale.** The chain does not bound the task index itself; the callers never pass 5.
- **Tossing the cigarette at the wrong bin.** `TossCigaretteTask.TriggerFire` lights the bin through the game before the chain checks the bin (`ArsonMod/Tasks/TossCigaretteTask.cs:115-125`). The bin-fire hook then ignites that room even though the chain refuses the finale.
