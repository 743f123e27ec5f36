# Lunch-bet race game: a Dafny model

This project models the logic of a small casual game in which a group picks a
player count, gives each player a zodiac animal, and watches a simulated 100 m
race whose last-placed animal pays for lunch. After the race, the players can
watch a rewarded ad to play again.

The model covers five pieces of the game, one Dafny module each:

- `RaceGame` (race_game.dfy) is the race. Before it comes a countdown gate of 3
  steps. Then each tick advances every unfinished track by a supplied increment,
  capped at 100. Once every track is at 100, the same tick runs a stable sort by
  descending progress, gives each track `position = N - index`, and picks the
  loser as the first track with the largest position (the `reduce`). The tick
  updater is pure, so it is written as functions. The component's state is the
  class `RaceGame.RaceGame`, which has `CountdownStep` and `Advance` methods.
- `AnimalSelection` (animal_selection.dfy) is the selection list. It is bounded
  by the player count and has no duplicates. It has the click toggle, the
  start guard and the per-button disabled rule. The list is replaced wholesale
  on each click, so it is written as pure functions.
- `App` (app.dfy) holds the `Animal` type and the screen navigation, a class
  with three fields and four handlers.
- `ResultDialog` (result_dialog.dfy) is the reward-ad attempt. It is an async
  handler that sets `adState`/`errorMessage` around two awaits. It becomes a
  class with one method per resumption and a `phase` field saying which await
  the handler is suspended at. It also has the ad button's disabled predicate.
- `AppsInTossAd` (apps_in_toss_ad.dfy) is the rewarded-ad manager. Its fields
  `status` and `cleanup` change in place. `load` and `show` fold the SDK's
  callback events and are each proved against a specification function. The
  module-level singleton cache is the class `ManagerCache`.

What this reveals about the race: the cap at line 61 of RaceGame.tsx makes every
finished track's progress exactly 100. So the comparator at line 76 always
returns 0, and the stable sort keeps input order. The `i`-th animal therefore
always gets position `N - i`, and the loser is always the first animal
selected, whatever the random draws (`RaceGame.FinishedRankingIsInputOrder`).
The comment at line 75 says the reverse: earlier finishers should get lower
positions. The model follows the code.
`RaceGame.ScenarioFirstOverTheLineLoses` shows the difference with three
animals and forced increments. The rat crosses the line first, then the ox and
the tiger together. The code gives the rat position 3 and names it the loser.

Randomness is a parameter. Each tick takes one increment per track, and
`RaceGame.ValidSpeeds` says each lies in [1.5, 4), the range of
`Math.random() * 2.5 + 1.5`. Progress is an exact `real`. The platform ad SDK
also becomes inputs: an `isSupported` boolean per call and the sequence of
callback events the SDK delivers. A promise that no event settles is
`Unresolved`. In the dialog, an awaited promise is `Fulfilled` or `Rejected`.
Timers are method calls: one `CountdownStep` per countdown effect run, one
`Advance` per firing of the 50 ms interval, and a `restartScheduled` flag for
the 500 ms restart timer.

## Model

| member | source | states |
|---|---|---|
| `RaceGame.InitialResults` | src/components/RaceGame.tsx:34-36 | one track per animal, in input order, at position 0 and progress 0 |
| `RaceGame.StepTrack` | src/components/RaceGame.tsx:56-67 | a track already at ≥ 100 is returned unchanged; any other moves to min(p + s, 100), so it never passes 100, reaches 100 once p + s ≥ 100, never moves back for s ≥ 0, and keeps its animal and position |
| `RaceGame.StepAll` | src/components/RaceGame.tsx:56-67 | the map keeps the number and order of tracks and steps each one by its own increment |
| `RaceGame.InsertDesc` | src/components/RaceGame.tsx:74-77 | stable insertion into the sorted list adds exactly one element (multiset) |
| `RaceGame.SortDesc` | src/components/RaceGame.tsx:74-77 | the sort result is a permutation of its input (multiset equality) |
| `RaceGame.SortDescSorted` | src/components/RaceGame.tsx:74-77 | the sort orders tracks by non-increasing progress |
| `RaceGame.SortDescTied` | src/components/RaceGame.tsx:74-77 | when all progress values are equal the stable sort returns its input unchanged |
| `RaceGame.SortDescDistinct` | src/components/RaceGame.tsx:74-77 | sorting keeps animals distinct |
| `RaceGame.FindIndex` | src/components/RaceGame.tsx:80 | `findIndex` gives the first index holding the animal, or -1 exactly when none holds it |
| `RaceGame.AssignPositions` | src/components/RaceGame.tsx:79-82 | positions are assigned without changing the number, order, animal or progress of the tracks |
| `RaceGame.PositionIsSortIndex` | src/components/RaceGame.tsx:74-82 | each track's position is N minus the index of its animal in the sorted list, hence in 1..N; with distinct animals that sorted entry is the track itself |
| `RaceGame.PositionsArePermutation` | src/components/RaceGame.tsx:74-82 | with distinct animals no two tracks share a position and the set of positions is exactly {1..N} |
| `RaceGame.ReduceLastPlace` | src/components/RaceGame.tsx:85-87 | the fold's accumulator ends at an element of maximum position, the first such because `>` is strict |
| `RaceGame.LastPlace` | src/components/RaceGame.tsx:85-87 | on a non-empty list, `reduce` picks the first track with the largest position |
| `RaceGame.LoserIsSortedHead` | src/components/RaceGame.tsx:74-89 | the loser has position N and is the animal at the head of the sorted list (most progress), for any list of N ≥ 1 tracks |
| `RaceGame.Tick` | src/components/RaceGame.tsx:55-96 | the updater throws exactly on an empty race; it keeps running exactly while some stepped track is short of 100; otherwise it keeps the tracks' number, order and animals |
| `RaceGame.TickAdvancesTracks` | src/components/RaceGame.tsx:55-96 | a tick leaves finished tracks alone, sets the others to min(p + s, 100) and keeps progress in [0, 100], non-decreasing |
| `RaceGame.TickRanksAtOnce` | src/components/RaceGame.tsx:69-95 | while the race runs a tick changes no position; on the finishing tick every track gets a position in 1..N |
| `RaceGame.AllFinishedAfterStep` | src/components/RaceGame.tsx:56-70 | `every` holds after the step exactly when each track was already finished or its increment carries it to 100 |
| `RaceGame.FinishedTracksAtFinish` | src/components/RaceGame.tsx:56-72 | when a tick leaves every track at ≥ 100, every track is at exactly 100, because of the cap |
| `RaceGame.TiedRankingIsInputOrder` | src/components/RaceGame.tsx:74-89 | when all tracks share one progress value, the first track supplies the loser and, with distinct animals, the i-th track gets position N - i |
| `RaceGame.FinishedRankingIsInputOrder` | src/components/RaceGame.tsx:61-92 | on the finishing tick every track is at exactly 100, the loser is the first animal of the input, and with distinct animals the i-th gets position N - i |
| `RaceGame.TickKeepsRaceInvariant` | src/components/RaceGame.tsx:55-96 | from a running race whose tracks are in order, in range and unranked, a tick keeps that invariant or finishes the race with the first animal as loser and every track at 100; it throws only for an empty race |
| `RaceGame.ScenarioFirstOverTheLineLoses` | src/components/RaceGame.tsx:55-96 | with forced increments, the first animal over the line gets position 3 of 3 and is named the loser |
| `RaceGame.RunTicks` | src/components/RaceGame.tsx:51-100 | repeated firings of the interval keep the tracks' number, order and animals, and throw exactly when the race is empty and the interval fires at least once |
| `RaceGame.RunTicksStopsWhenFinished` | src/components/RaceGame.tsx:52-100 | once the race has finished after the first k firings the interval is cleared, so the later draws do not change the outcome |
| `RaceGame.RaceFinishesInTime` | src/components/RaceGame.tsx:55-96 | with increments of at least 1.5, t remaining ticks finish a race whose tracks are all within 1.5·t of the line |
| `RaceGame.RaceFinishesWithin67Ticks` | src/components/RaceGame.tsx:59-72 | a race of at least one animal always finishes within 67 ticks |
| `RaceGame.RaceGame.constructor` | src/components/RaceGame.tsx:32-38 | the component starts with countdown 3, not started, not finished, no loser, all tracks at 0 |
| `RaceGame.RaceGame.CountdownStep` | src/components/RaceGame.tsx:41-48 | a positive countdown drops by one; at 0 the race starts; tracks, finished and loser are untouched |
| `RaceGame.RaceGame.Advance` | src/components/RaceGame.tsx:51-96 | nothing happens before the race starts or after it finishes; otherwise the state follows the tick; the class invariant keeps positions 0 and no loser until finished, then the loser is the first animal and all tracks are at 100 |
| `AnimalSelection.AnimalsTable` | src/components/AnimalSelection.tsx:11-24 | the table lists 12 distinct animals and contains every animal |
| `AnimalSelection.Without` | src/components/AnimalSelection.tsx:31 | the filter keeps exactly the other animals and preserves duplicate-freedom |
| `AnimalSelection.Toggle` | src/components/AnimalSelection.tsx:29-37 | after a click the animal is selected exactly when it was not and there was room; no other animal's membership changes; no-duplicates and length ≤ playerCount are preserved |
| `AnimalSelection.DeselectRemovesIt` | src/components/AnimalSelection.tsx:30-31 | clicking a selected animal removes exactly it and keeps the other animals in order |
| `AnimalSelection.SelectAppends` | src/components/AnimalSelection.tsx:33-34 | an unselected animal is appended at the end while the list is not full |
| `AnimalSelection.IsDisabled` | src/components/AnimalSelection.tsx:67-68 | an animal's button is disabled exactly when clicking it would leave the selection unchanged |
| `AnimalSelection.ToggleTwiceRestores` | src/components/AnimalSelection.tsx:29-37 | from a list that is not full, two clicks on the same unselected animal restore the list |
| `AnimalSelection.ToggleTwiceRestoresSelected` | src/components/AnimalSelection.tsx:29-37 | two clicks on a selected animal move it to the end of the list |
| `AnimalSelection.HandleStart` | src/components/AnimalSelection.tsx:39-43 | the selection is emitted exactly when its length equals playerCount, and unchanged |
| `AnimalSelection.StartDisabled` | src/components/AnimalSelection.tsx:98 | the start button is disabled exactly when `handleStart` would emit nothing; on a valid selection, exactly while it is shorter than playerCount |
| `AnimalSelection.Clicks` | src/components/AnimalSelection.tsx:29-37 | after any sequence of clicks from the empty list only clicked animals are selected, and no more animals than clicks |
| `AnimalSelection.ReachableSelectionIsValid` | src/components/AnimalSelection.tsx:29-43 | every list reachable by clicks is duplicate-free and within playerCount; every emitted selection is a duplicate-free list of playerCount animals from the table |
| `AnimalSelection.ClickingDistinctSelectsThem` | src/components/AnimalSelection.tsx:33-34 | clicking distinct animals with room for all selects them in click order |
| `AnimalSelection.EveryPlayerCountCanStart` | src/components/AnimalSelection.tsx:39-43 | for every player count from 2 to 12 some clicks make the game startable |
| `AnimalSelection.ScenarioThreePlayersStart` | src/components/AnimalSelection.test.tsx:67-78 | three clicks with playerCount 3 then start emit the rat, the ox and the tiger in click order |
| `AnimalSelection.ScenarioNoThirdAnimal` | src/components/AnimalSelection.test.tsx:92-101 | with playerCount 2 a third new animal is not added |
| `AnimalSelection.ScenarioDeselect` | src/components/AnimalSelection.test.tsx:41-50 | clicking an animal twice leaves the selection empty |
| `App.NameInjective` | src/App.tsx:6 | distinct animals have distinct labels |
| `App.RenderedScreens` | src/App.tsx:33-48 | exactly one screen is rendered for each game state, and it is the matching one |
| `App.App.constructor` | src/App.tsx:11-13 | the app starts on player selection with playerCount 2 and no animals |
| `App.App.HandlePlayerSelect` | src/App.tsx:15-18 | the chosen count is stored and animal selection is shown; the animals are untouched |
| `App.App.HandleAnimalsSelect` | src/App.tsx:20-23 | the animals are stored and the race is shown; the count is untouched |
| `App.App.HandleRestart` | src/App.tsx:25-29 | all three fields get their initial values whatever the state before, so a second restart changes nothing |
| `App.App.Back` | src/App.tsx:40 | back returns to player selection and keeps the count and the animals |
| `ResultDialog.MessagesDistinct` | src/components/ResultDialog.tsx:29-55 | the four error messages are pairwise different and non-empty |
| `ResultDialog.IsAdButtonDisabled` | src/components/ResultDialog.tsx:98 | the button is enabled exactly in idle and error |
| `ResultDialog.ShowOutcome` | src/components/ResultDialog.tsx:38-55 | success exactly when show fulfilled with success and rewarded; otherwise error, with the not-watched message exactly for success without reward, the show-failed message exactly for no success, the processing message exactly for a rejection |
| `ResultDialog.RetryUnlessSuccess` | src/components/ResultDialog.tsx:98 | every end of an attempt except success allows a retry |
| `ResultDialog.RewardedShowSucceeds` | src/components/ResultDialog.tsx:40-44 | a rewarded result of the manager's `show` always leads the dialog to success |
| `ResultDialog.Dialog.constructor` | src/components/ResultDialog.tsx:14-15 | the dialog starts idle with no message and no attempt running |
| `ResultDialog.Dialog.HandleWatchAd` | src/components/ResultDialog.tsx:22-29 | a click on the enabled button sets loading, clears the message and waits for `load` |
| `ResultDialog.Dialog.ResumeAfterLoad` | src/components/ResultDialog.tsx:29-38 | a failed load ends in error with the load message and never reaches `show`; a rejection ends with the processing message; a successful load shows `showing` before `show` is awaited |
| `ResultDialog.Dialog.ResumeAfterShow` | src/components/ResultDialog.tsx:38-56 | the attempt ends as `ShowOutcome` says, and the restart is scheduled exactly on success |
| `AppsInTossAd.LoadSpec` | src/lib/appsInTossAd.ts:40-63 | load resolves true exactly when the status is loaded, false exactly when it is error, and stays unresolved (holding the cleanup) exactly when no loaded or error event arrives; the first such event decides: `loaded` gives true, an error gives false |
| `AppsInTossAd.LoadSettlesOnce` | src/lib/appsInTossAd.ts:47-61 | after load settled, later events change nothing |
| `AppsInTossAd.LastReward` | src/lib/appsInTossAd.ts:94-100 | reward data is present exactly when some userEarnedReward event occurred |
| `AppsInTossAd.ShowSettlement` | src/lib/appsInTossAd.ts:81-114 | a settled show result is only rewarded if successful, and a failure is always {false, false} |
| `AppsInTossAd.ShowSpec` | src/lib/appsInTossAd.ts:66-115 | without a loaded ad or without support show fails at once and changes nothing; the status only stays or goes to idle |
| `AppsInTossAd.DismissedRewardedIffEarned` | src/lib/appsInTossAd.ts:101-103 | a dismissal as the first terminal event succeeds, rewarded exactly when a userEarnedReward came earlier |
| `AppsInTossAd.ShowSettlementStep` | src/lib/appsInTossAd.ts:89-112 | one more event leaves a settled result alone and settles an unsettled one exactly on dismissed, failedToShow or an error |
| `AppsInTossAd.ShowPrefixStep` | src/lib/appsInTossAd.ts:89-100 | one more event sets the reward flag and data exactly on `userEarnedReward` (keeping the last data) and counts as "requested" exactly when it is one |
| `AppsInTossAd.ShowSettlesOnce` | src/lib/appsInTossAd.ts:81-114 | events after the first terminal one do not change the result |
| `AppsInTossAd.SecondShowFails` | src/lib/appsInTossAd.ts:71-93 | a requested event resets the status to idle, so a second show without a new load fails |
| `AppsInTossAd.LoadAndShowSpec` | src/lib/appsInTossAd.ts:117-129 | loadAndShow succeeds only after a successful load on a supported platform; without load support it fails and changes nothing; a load that never settles leaves it pending with status loading; a failed load gives {false, false} with status error and no cleanup, and show never runs; after a successful load the result and status are those of show from loaded |
| `AppsInTossAd.RewardedAdManager.constructor` | src/lib/appsInTossAd.ts:17-24 | a new manager is idle with no cleanup |
| `AppsInTossAd.RewardedAdManager.Load` | src/lib/appsInTossAd.ts:34-64 | unsupported: false, nothing changes; supported: result, status and cleanup are those of `LoadSpec` |
| `AppsInTossAd.RewardedAdManager.Show` | src/lib/appsInTossAd.ts:66-115 | the event fold gives the result and status of `ShowSpec`; the cleanup is untouched |
| `AppsInTossAd.RewardedAdManager.LoadAndShow` | src/lib/appsInTossAd.ts:117-129 | result, status and cleanup are those of `LoadAndShowSpec`: show runs only after load resolved true |
| `AppsInTossAd.RewardedAdManager.Dispose` | src/lib/appsInTossAd.ts:131-135 | dispose sets the status to idle and drops the cleanup |
| `AppsInTossAd.ManagerCache.constructor` | src/lib/appsInTossAd.ts:143 | the cache starts empty |
| `AppsInTossAd.ManagerCache.GetRewardedAdManager` | src/lib/appsInTossAd.ts:145-152 | the cached manager is returned for the same id; for another id (or none cached) a fresh idle manager replaces it |

## Left out

- Rendering (JSX, Tailwind classes, emoji maps, `getAdButtonContent`) is presentation only and is not modelled.
- Timer cadence (`setInterval` of 50 ms, `setTimeout` of 1000 ms and 500 ms) and effect cleanup are left out. Each countdown step and tick is one method call. The restart timer is a flag; the reset it triggers is `App.App.HandleRestart`.
- `Math.random` and floating point are left out. Increments are caller-supplied exact reals in [1.5, 4).
- The crash after `reduce` throws on an empty race is left out. In the program the TypeError escapes the render and, with no error boundary, the whole tree unmounts. The model instead reports `ReduceOfEmptyArray` and keeps the previous state.
- `SortDesc`: stability is proved only in the case the tick reaches, where all progress values are equal. The general stable-sort property is not proved.
- The ResultDialog's mount-time preload (src/components/ResultDialog.tsx:17-20) is left out. So is any interleaving of two `load` calls on the shared manager, or of `dispose` with a pending `load`. Each `load`/`show` call consumes its whole event sequence at once.
- `AppsInTossAd.RewardedAdManager.Load`: an event that the SDK delivers before `loadAppsInTossAdMob` returns its cleanup is not modelled; events count only after registration. The SDK's own `isSupported` and any exception it throws are not modelled either. The dialog gets rejections as `Rejected` inputs.
- `RewardedAdManager.isSupported` and `getStatus` read the SDK or a field and have no contract. Console logging is not modelled.
- `src/components/PlayerSelection.tsx` is not part of this model. Its offered counts 2..12 (line 6) appear only as the precondition of `App.App.HandlePlayerSelect`.
- The build configuration and the tests are used only as evidence. One test (src/components/ResultDialog.test.tsx:23) expects text that the dialog does not render (src/components/ResultDialog.tsx:107).
