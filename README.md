# Number-tapping game: a verified model

The game is a single React widget (`mini-app/components/game.tsx`): a 5×5
grid holds the numbers 1–25 in shuffled order, the player must tap them in
ascending order, a stopwatch starts on the first correct tap and stops on
the last, and the grid is reshuffled after every correct tap except the
last. This project models the widget's logic in Dafny and proves its
properties:

- `shuffle.dfy` (module `Shuffle`): `shuffleArray`, the Fisher–Yates
  shuffle of `[1..25]`, as a method over an `array` with a decreasing loop,
  specified by the function `FisherYates`. The random index drawn at step
  `i` is an oracle input `picks[i]` with `0 <= picks[i] <= i`.
- `game_rules.dfy` (module `GameRules`): the widget's state as a value
  (`Snapshot`), one function per transition (`handleClick`, Start Game,
  `restart`, a timer tick, `stopTimer`, and `setGameState` together with
  the effect that runs when the phase changes), the invariant every
  reachable state keeps, and the lemmas about them.
- `game.dfy` (module `Game`): class `GameWidget`, whose fields are the
  widget's state hooks and whose methods are its handlers. The four
  handlers `HandleClick`, `StartGame`, `Restart` and `Tick` are proved to
  perform `AfterClick`, `AfterStart`, `AfterRestart` and `AfterTick` and to
  keep `Valid()`. The three helpers `StartTimer`, `StopTimer` and
  `SetGameState` each perform one step and do not keep `Valid()` on their
  own.
- `format_time.dfy` (module `TimeFormat`): `formatTime`, which prints a
  millisecond count as `M:SS.mmm`, with a parser `ParseTime` proved to be
  its inverse in both directions.

Each React handler, together with the effect it triggers, is taken as one
atomic update. Clock readings (`Date.now`) are parameters named `now`.

The target is one more than the number of tapped tiles only until the last
tap; after it the code keeps the target at 25 with all 25 tiles tapped
(`TappedCount`, `ClickFinishes`).

## Model

| member | source | states |
|---|---|---|
| `Shuffle.ShuffleArray` | mini-app/components/game.tsx:17-24 | the in-place loop returns exactly `FisherYates(picks)`, and that grid is a permutation of 1..25; its loop keeps the multiset and the positions above the current index already final |
| `Shuffle.Ascending` | mini-app/components/game.tsx:18 | the array the shuffle starts from has 25 entries, the first 1 and the last 25 |
| `Shuffle.AscendingIncreasing` | mini-app/components/game.tsx:18 | the start array is strictly increasing, so with its ends it is exactly 1, 2, ..., 25 |
| `Shuffle.FisherYates` | mini-app/components/game.tsx:17-24 | for every choice of indices with `0 <= j <= i`, the shuffled grid is a permutation of 1..25 |
| `Shuffle.Swap` | mini-app/components/game.tsx:21 | the destructuring swap exchanges positions `i` and `j` and leaves every other position as it was |
| `Shuffle.Steps` | mini-app/components/game.tsx:19-22 | the loop steps from index i down to 1 keep a 25-element array 25 elements long |
| `Shuffle.SwapPermutes` | mini-app/components/game.tsx:21 | one swap keeps the multiset of elements |
| `Shuffle.StepsPermutes` | mini-app/components/game.tsx:19-22 | any run of the loop's steps only rearranges the elements |
| `Shuffle.StepsKeepAbove` | mini-app/components/game.tsx:19-22 | once step `i` is reached, positions above `i` are never touched again |
| `Shuffle.LoopStep` | mini-app/components/game.tsx:19-22 | one iteration (swap at i, move to i - 1) keeps the result of the remaining steps and the multiset, and settles position i for good |
| `Shuffle.AscendingCount` | mini-app/components/game.tsx:18 | the start array holds each of 1..25 exactly once and nothing else |
| `Shuffle.EachExactlyOnce` | mini-app/components/game.tsx:17-24 | a grid is a permutation exactly when each of 1..25 occurs once and no other number occurs |
| `Shuffle.PermutationFacts` | mini-app/components/game.tsx:17-24 | a permutation grid has 25 entries, all in 1..25, pairwise distinct, covering every tile |
| `TimeFormat.NatToString` | mini-app/components/game.tsx:76-78 | `toString` of a nonnegative integer is a nonempty digit string with no leading zero unless it is "0" |
| `TimeFormat.PadStart` | mini-app/components/game.tsx:76-78 | `padStart` leaves a string of at least the width alone and otherwise prefixes fill characters up to exactly the width |
| `TimeFormat.Split` | mini-app/components/game.tsx:72-75 | seconds are below 60, milliseconds below 1000, and `minutes*60000 + seconds*1000 + millis == ms` |
| `TimeFormat.SplitUnique` | mini-app/components/game.tsx:72-75 | those three conditions determine the fields uniquely |
| `TimeFormat.SplitFields` | mini-app/components/game.tsx:72-75 | the fields are `ms / 60000` minutes, `(ms / 1000) % 60` seconds and `ms % 1000` milliseconds |
| `TimeFormat.Slices` | mini-app/components/game.tsx:76-78 | the minutes, the two-digit seconds and the three-digit milliseconds can be cut back out of the printed string by their positions from the end |
| `TimeFormat.ParseNatToString` | mini-app/components/game.tsx:76 | reading back what `toString` printed gives the number |
| `TimeFormat.NatToStringParse` | mini-app/components/game.tsx:76 | `toString` of the value of a canonical numeral gives the numeral back |
| `TimeFormat.LeadingZeros` | mini-app/components/game.tsx:76-78 | zero padding does not change a digit string's value |
| `TimeFormat.NatToStringLength` | mini-app/components/game.tsx:76-78 | a number below 10^w prints in at most w digits, so padding to w never truncates |
| `TimeFormat.PaddedValue` | mini-app/components/game.tsx:76-78 | a number below 10^w zero-padded to width w is exactly w digits whose value is the number |
| `TimeFormat.PadStartStep` | mini-app/components/game.tsx:76-78 | padding a shorter string to width w is one fill character before the padding to w - 1 |
| `TimeFormat.PaddedParse` | mini-app/components/game.tsx:76-78 | every w-digit string is what zero-padding its own value to width w prints |
| `TimeFormat.BelowPow10` | mini-app/components/game.tsx:76-78 | a w-digit string has a value below 10^w |
| `TimeFormat.FormatTime` | mini-app/components/game.tsx:71-79 | the output is canonical minutes (`ms / 60000`), ':', exactly two digits of seconds (`(ms / 1000) % 60`), '.', exactly three digits of `ms % 1000` |
| `TimeFormat.FormatTimeRoundTrip` | mini-app/components/game.tsx:71-79 | parsing a formatted time gives the millisecond count back |
| `TimeFormat.ParseTimeFormats` | mini-app/components/game.tsx:71-79 | every string that parses to `ms` is exactly `formatTime(ms)`: the format is canonical |
| `TimeFormat.FormatTimeExample` | mini-app/components/game.tsx:71-79 | `formatTime(65432)` is "1:05.432" |
| `GameRules.Below` | mini-app/components/game.tsx:12 | the set of tiles that precede tile n is exactly 1..n-1 |
| `GameRules.BelowCard` | mini-app/components/game.tsx:12 | there are n - 1 tiles below tile n |
| `GameRules.BelowSucc` | mini-app/components/game.tsx:53 | the tiles below n + 1 are those below n and n |
| `GameRules.Mount` | mini-app/components/game.tsx:8-15 | the mounted state (not started, target 1, nothing tapped, elapsed 0, no interval) with a permutation grid satisfies the invariant |
| `GameRules.WithTimerStopped` | mini-app/components/game.tsx:33-38 | `stopTimer` leaves no interval and changes nothing else |
| `GameRules.AfterPhaseChange` | mini-app/components/game.tsx:40-45 | `setGameState(p)` with its effect: the phase becomes p and nothing but the timer changes; when the phase changes, the timer is stopped; re-setting the current phase changes nothing, because the effect does not run again |
| `GameRules.AfterClick` | mini-app/components/game.tsx:47-61 | `handleClick` never writes elapsed, adds at most its own number to the tapped set, and leaves the grid as it was or replaces it by the reshuffled one |
| `GameRules.AfterStart` | mini-app/components/game.tsx:110-111 | the Start Game handler sets the phase to running and changes nothing else but the timer |
| `GameRules.AfterRestart` | mini-app/components/game.tsx:40-69 | `restart` sets not started, target 1, nothing tapped, the new grid and elapsed 0; the effect stops the timer when the phase changes, and a restart while not started keeps the timer |
| `GameRules.AfterTick` | mini-app/components/game.tsx:28-30 | a tick changes nothing but elapsed |
| `GameRules.Step` | mini-app/components/game.tsx:47-111 | one event sent to its handler, with the render gates `StartAvailable` (line 110) and `RestartAvailable` (lines 84-87): Start Game either changes nothing or sets a not-started game running, Restart either changes nothing or turns a finished game into the mount state with the new grid, a tap keeps elapsed, and a tick changes nothing but elapsed |
| `GameRules.ClickInv` | mini-app/components/game.tsx:47-61 | `handleClick` keeps the invariant |
| `GameRules.StartInv` | mini-app/components/game.tsx:110-111 | Start Game keeps the invariant |
| `GameRules.RestartInv` | mini-app/components/game.tsx:63-69 | `restart` keeps the invariant |
| `GameRules.TickInv` | mini-app/components/game.tsx:28-30 | an interval tick keeps the invariant |
| `GameRules.StepInv` | mini-app/components/game.tsx:47-69 | every event (tap, Start Game, restart, tick) keeps the invariant |
| `GameRules.RunInv` | mini-app/components/game.tsx:47-69 | every sequence of events keeps the invariant |
| `GameRules.ReachableInv` | mini-app/components/game.tsx:8-69 | every state reachable from mounting: target in 1..25, tapped is exactly 1..target-1 before the end and 1..25 at the end, grid a permutation, timer running iff running with at least one correct tap, elapsed 0 before the first tap |
| `GameRules.TappedCount` | mini-app/components/game.tsx:11-12 | before the end the target is one more than the number of tapped tiles; at the end 25 tiles are tapped |
| `GameRules.ClickGuards` | mini-app/components/game.tsx:48-49 | a tap while not running, or on a tile other than the target, changes nothing at all |
| `GameRules.ClickAdvances` | mini-app/components/game.tsx:47-61 | an accepted tap of n < 25 adds exactly n (not tapped before), sets the target to n + 1, keeps running, installs the new grid, keeps elapsed, and starts the timer exactly when n is 1 |
| `GameRules.ClickFinishes` | mini-app/components/game.tsx:40-56 | the accepted tap of 25 adds 25 so all tiles are tapped, finishes the game, stops the timer, and keeps the target, the grid and elapsed |
| `GameRules.NoRetap` | mini-app/components/game.tsx:47-53 | in a reachable state a tapped tile is never accepted again |
| `GameRules.StopTimerIdempotent` | mini-app/components/game.tsx:33-38 | `stopTimer` leaves no interval and a second call changes nothing |
| `GameRules.TimerStartsOnlyOnFirstTap` | mini-app/components/game.tsx:26-52 | in a reachable state the only event that makes the timer active is the accepted tap of 1 while running, and it records that tap's time |
| `GameRules.TickSetsElapsed` | mini-app/components/game.tsx:28-30 | while the timer is active a tick sets elapsed to now minus the start time; while it is stopped a tick changes nothing |
| `GameRules.FinishedIsFrozen` | mini-app/components/game.tsx:40-56 | after the end, ticks change nothing: elapsed is frozen |
| `GameRules.StartChangesOnlyPhase` | mini-app/components/game.tsx:110-111 | from the not-started state, Start Game changes only the phase, to running |
| `GameRules.RestartResets` | mini-app/components/game.tsx:40-69 | from any reachable state `restart` yields the mount state with the new grid; the timer is stopped by the effect cleanup |
| `GameRules.RestartIdempotent` | mini-app/components/game.tsx:63-69 | restarting twice gives the same state as restarting once with the second grid |
| `GameRules.PhaseOrder` | mini-app/components/game.tsx:47-111 | from a reachable state one event moves the phase only forward: not started to running, running to finished, finished back to not started |
| `GameRules.TapsInOrder` | mini-app/components/game.tsx:47-61 | after Start Game, tapping 1..k (k < 25) in order leaves the game running with target k + 1, tiles 1..k tapped and the timer started at the first tap |
| `GameRules.FullGame` | mini-app/components/game.tsx:47-61 | after Start Game, tapping 1..25 in order finishes the game with target 25, all tiles tapped and the timer stopped |
| `Game.GameWidget.constructor` | mini-app/components/game.tsx:8-15 | mounting gives the mount state with a shuffled grid, and the invariant holds |
| `Game.GameWidget.StartTimer` | mini-app/components/game.tsx:26-31 | records the start time and schedules the interval, changing nothing else |
| `Game.GameWidget.StopTimer` | mini-app/components/game.tsx:33-38 | afterwards no interval is scheduled; nothing else changes |
| `Game.GameWidget.SetGameState` | mini-app/components/game.tsx:40-45 | performs exactly `AfterPhaseChange`: sets the phase and stops the timer when the phase changes, and leaves everything as it was when it does not |
| `Game.GameWidget.HandleClick` | mini-app/components/game.tsx:47-61 | performs exactly `AfterClick` on the widget's state and keeps the invariant |
| `Game.GameWidget.StartGame` | mini-app/components/game.tsx:110-111 | changes only the phase, to running, and keeps the invariant |
| `Game.GameWidget.Restart` | mini-app/components/game.tsx:63-69 | performs exactly `AfterRestart`, which is the mount state with the new grid, and keeps the invariant |
| `Game.GameWidget.Tick` | mini-app/components/game.tsx:28-30 | performs exactly `AfterTick` and keeps the invariant |

## Left out

- Rendering (the JSX, the `Button` component and the `cn` class helper, lines 81-114): user-interface and library code. Its gating facts are kept in the event model `Step`: tiles already tapped are disabled, which the handler's guards already make harmless (`NoRetap`); the Start Game button exists only before the game starts (`StartAvailable`, line 110); the Restart button exists only on the completion screen (`RestartAvailable`, lines 84-87).
- Game.GameWidget.Restart: accepts a call in every phase, as `restart` itself does (lines 63-69); the rendered widget offers it only when finished, which only the event model `Step` captures.
- `formatTime` on IEEE double-precision numbers: `Math.floor(ms / 1000)` and `toString` agree with the natural-number arithmetic of `FormatTime` only below 2^53, and `toString` switches to exponent notation from 1e21 on; no real elapsed time comes close.
- `Math.random` and the floating-point index computation (line 20): replaced by the oracle input `picks`; uniformity and probability are not modelled.
- `Date.now`, `setInterval`/`clearInterval` and the 10 ms cadence (lines 27-30, 35): real time and host timers. The interval handle is the datatype `Timer` (stopped, or active with the start time its callback captured), and a tick is the explicit method `Tick(now)`.
- React's hook mechanics and the batching of setters (lines 8-15, 40-45): each handler, with the phase effect it triggers, is one atomic transition. Unmounting (the effect cleanup on teardown) is not modelled.
- `formatTime` for negative or fractional inputs: `FormatTime` takes a natural number. If the clock went backwards between the first tap and a tick, `elapsed` would be negative; the model keeps `elapsed` as an integer but does not format that case.
- Game.GameWidget.StartTimer: requires that no interval is scheduled, which the source does not check; `HandleClick` proves the requirement from the invariant, so the interval the source would overwrite and leak never exists.
- Game.GameWidget.StartGame: requires the not-started phase, because the button is rendered only then (line 110); the handler itself does not check the phase.
- Game.GameWidget.HandleClick: requires the object invariant, which the constructor and the handlers StartGame, Restart and Tick establish or keep; the helpers StartTimer, StopTimer and SetGameState alone do not.
