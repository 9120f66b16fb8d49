# Crewmate whack-a-mole, modelled in Dafny

The game is a whack-a-mole round on a 3x3 grid of holes, with crewmates instead of
moles. A round goes idle -> counting (a three-second countdown) -> playing (a round
clock) -> ended. While playing, a spawn interval shows a crewmate in a random hidden
hole and schedules an auto-hide. Whacking a showing crewmate scores a point and marks
the hole as hit. Clicking an empty hole marks it as missed. Both marks clear after
300 ms. When the clock runs out, the score is folded into the best score.

The repository ships two variants of the component, and each is modelled as it is
written:

- `app.dfy`, module `App`: the 60-second variant in App.tsx, using the records of
  types.ts. The round is one `GameState` record that the handlers replace through
  updater functions.
- `index.dfy`, module `Index`: the 45-second variant in index.tsx, with one piece of
  state per field. Compared with the 60-second variant:
  - start leaves the grid alone;
  - a spawn keeps the hole's feedback;
  - the whack handler checks for itself that the crewmate shows;
  - the countdown and the last seconds of the clock play tick cues;
  - the end of a round requests a report.
- `crew.dfy`, module `Crew`: what both variants share. That is the status, hole,
  feedback and cue types, the 12-colour palette, the random-index draw, the
  rewrites of the grid by id, and the one-second tick rule `v <= 1 ? 0 : v - 1`
  that drives both countdowns and both clocks.

Each component is a class, `App.Game` or `Index.Game`:

- The grid is an `array<Hole>` of nine holes.
- The audio cues played so far are recorded in a ghost cue log.
- Each handler and each timer callback is one method. Such a method states the whole
  new state in terms of the pure updater functions and keeps the class invariant
  `Valid()`. The one exception is `Index.Game.EndGame`. It runs inside the clock tick,
  after the clock is pinned to 0 and before the status changes, where `Valid()` does not
  hold. It requires only non-negative scores, and `Index.Game.ClockTick` restores the
  invariant. The `SetMoles` methods are plain grid setters used as helpers; they state
  only the new grid and promise nothing about `Valid()`.
- `Math.random()` draws are method parameters in `[0, 1)`, turned into indices as
  `Math.floor(r * n)` does, with the product taken on exact reals.
- A `setTimeout` a method schedules is returned as a `Timeout(hole, delay)` value.
  The callback it stands for is its own method.

## Model

| member | source | states |
|---|---|---|
| Crew.Pick | App.tsx:133 | `Math.floor(r * n)` for a draw `r` in [0,1) is an index below `n` with `k <= r*n < k+1` |
| Crew.FindById | App.tsx:149 | `find` by id returns a hole carrying that id, or nothing when no hole carries it |
| Crew.FindInGrid | index.tsx:192 | in a well-formed grid, the hole found under id `i` is the hole at position `i` |
| Crew.MapById | index.tsx:172 | `map(m => m.id === id ? f(m) : m)` applies `f` to every hole carrying `id` and leaves every other hole as it is |
| Crew.Deactivated | index.tsx:172 | hiding by id clears `active` exactly on the holes carrying `id` and keeps every id, colour and tag |
| Crew.WithFeedback | App.tsx:172 | tagging by id sets the tag exactly on the holes carrying `id` and keeps every id, flag and colour |
| Crew.MapByIdAt | App.tsx:172 | in a well-formed grid, `map(m => m.id === id ? f(m) : m)` rewrites exactly the hole at position `id` |
| Crew.DeactivateEffect | index.tsx:172 | hiding by id changes only that hole's `active` flag; the showing count drops by one if it showed, and a hidden hole is unchanged |
| Crew.WhackEffect | App.tsx:181-184 | a whack on a showing crewmate hides it and tags its hole as hit, nothing else changes, and the showing count drops by one |
| Crew.FeedbackEffect | App.tsx:171-175 | setting or clearing the feedback tag changes only that hole's tag; the showing count is unchanged |
| Crew.InitialHoles | App.tsx:24-32 | the initial grid is well formed (nine holes, ids 0..8), quiet (all hidden, no feedback), and every hole wears the first palette colour |
| Crew.ActiveCountZero | App.tsx:58 | the reset leaves no crewmate showing: no crewmate shows if and only if the showing count is zero, so the zero count `App.ResetHoles` gives means an empty board |
| Crew.ActiveCountUpdate | App.tsx:134-140 | replacing one hole changes the showing count by the difference of the two `active` flags |
| Crew.TickDown | App.tsx:90-95 | a tick expires exactly when the value is at most 1, and otherwise gives a value that is at least 1 and smaller than before |
| Crew.TickManyExact | App.tsx:88-96 | a countdown started at `v >= 1` shows `v - n` after `n < v` ticks, expires on exactly its `v`-th tick, and never goes negative |
| App.InitialState | App.tsx:14-20 | the mounted record is idle, holds the stored best score, has no "new best" flag, and is consistent when the stored score is non-negative |
| App.Started | App.tsx:49-57 | start gives the counting status, score 0, the full minute, no "new best" flag and the old best score; the record is consistent whenever the best score is non-negative |
| App.Quitted | App.tsx:61-68 | quit gives the idle status, score 0 and the full minute, and keeps the best score and the "new best" flag; from counting or playing the record stays consistent |
| App.EndGame | App.tsx:72-81 | endGame gives status ended, keeps score and clock, sets the best score to max(score, best), and raises "new best" exactly when score > old best |
| App.CountdownStep | App.tsx:88-96 | a countdown tick above 1 goes down by exactly one; at 1 or below it pins to 0 and starts play; the round's score, clock and best score are untouched |
| App.ClockStep | App.tsx:107-114 | a clock tick never goes negative, ends the round exactly when at most one second is left, never lowers the best score, and keeps a playing record consistent |
| App.CountdownRun | App.tsx:88-96 | a countdown at `c >= 1` stays counting for `c - 1` ticks and starts play on tick `c` |
| App.AfterPlay | App.tsx:90-93 | once play has started, further countdown ticks change nothing |
| App.ClockRun | App.tsx:107-114 | while playing, the clock loses one second per tick and the round ends on exactly the tick that finds one second left |
| App.RoundTimeline | App.tsx:49-114 | from start, three countdown ticks reach play with 60 s left; after 59 clock ticks the round still plays, and after 60 it has ended with the clock at 0 |
| App.StartVersusQuit | App.tsx:49-70 | start and quit agree on score, clock and best score, and differ only in the status and the "new best" flag |
| App.EndGameExamples | App.tsx:72-81 | a score of 7 over a best of 5 gives (7, new best); a score of 3 over a best of 5 gives (5, not new) |
| App.ResetHoles | App.tsx:58 | the reset hides every crewmate, clears every tag, and keeps each hole's id and colour |
| App.InactiveIndices | App.tsx:127-129 | the hidden-hole list holds positions of the grid |
| App.InactiveIndicesOrdered | App.tsx:127-129 | every listed position is a hidden hole, and the positions strictly increase |
| App.InactiveIndicesComplete | App.tsx:127-129 | every hidden hole's position is listed, and the list has one entry per hidden hole |
| App.InactiveIndicesSpec | App.tsx:127-131 | the list holds exactly the hidden holes' positions, increasing, one per hidden hole, so it is empty exactly when all nine show |
| App.Spawned | App.tsx:134-140 | the in-place write makes the drawn hole show in the drawn colour with no tag, keeps its id, and leaves every other hole as it is |
| App.SpawnShowsOne | App.tsx:133-140 | spawning on a hidden hole shows exactly that crewmate in the drawn colour with no feedback; every other hole is unchanged and the showing count rises by one |
| App.Hidden | App.tsx:154 | the positional hide clears `active` at that position only and keeps every id, colour and tag |
| App.HideEffect | App.tsx:147-155 | auto-hide hides only its own hole and keeps its tag; on a hole already hidden it changes nothing |
| App.SpawnRate | App.tsx:162 | the spawn interval is at least 400 ms, equals `max(400, 20 * timeLeft)` exactly, and is at most 1200 ms within a round |
| App.SpawnRateMonotone | App.tsx:162 | the spawn interval does not increase as the clock runs down |
| App.DifficultyMultiplier | App.tsx:144 | the multiplier is at least 0.4 |
| App.ShowDuration | App.tsx:145 | a crewmate shows for at least 280 ms and for less than 1500 ms times the multiplier |
| App.ShowDurationMonotone | App.tsx:144-145 | for the same draw, a crewmate shows no longer later in the round than earlier |
| App.Digit | App.tsx:199 | a digit prints as a character between '0' and '9' |
| App.Decimal | App.tsx:199 | `${n}` is a non-empty string of digits, with one digit below 10 and two below 100 |
| App.DecimalNoLeadingZero | App.tsx:199 | a positive number prints without a leading zero |
| App.PadStart2 | App.tsx:199 | padding gives at least two characters: zeros in front, then the original string unchanged |
| App.DecimalRoundTrip | App.tsx:199 | the printed digits read back as the number |
| App.FormatTime | App.tsx:196-200 | the display is minutes, a colon, and two digits, with digits everywhere else |
| App.PaddedSeconds | App.tsx:198-199 | seconds below 60 print as exactly two digits that read back as themselves |
| App.FormatTimeSplit | App.tsx:196-200 | before the colon stands exactly the decimal `floor(seconds / 60)`, with no leading zero from one minute on, and it reads back as that number; after the colon come exactly two digits that read back as `seconds % 60`, which is below 60 |
| App.FormatTimeRoundTrip | App.tsx:196-200 | the display loses nothing: minutes * 60 + seconds reads back as the input |
| App.FormatTimeExamples | App.tsx:196-200 | 60 shows as "1:00" and 5 as "0:05" |
| App.Game.constructor | App.tsx:14-32 | the component mounts idle with the stored best score, the countdown at 3, and the initial grid |
| App.Game.SetMoles | App.tsx:24 | the `setMoles` setter: the grid becomes the given sequence |
| App.Game.StartGame | App.tsx:49-59 | start applies the start updater, rewinds the countdown, resets the grid, and keeps the invariant |
| App.Game.QuitGame | App.tsx:61-70 | quit applies the quit updater, resets the grid, and keeps the invariant |
| App.Game.CountdownTick | App.tsx:88-96 | one countdown firing applies the countdown step and keeps the invariant |
| App.Game.ClockTick | App.tsx:107-114 | one clock firing applies the clock step and keeps the invariant |
| App.Game.SpawnMole | App.tsx:125-159 | with no hidden hole nothing happens; otherwise the drawn hidden hole shows in the drawn colour, the pop cue plays, and its auto-hide is scheduled after the show duration |
| App.Game.HideMole | App.tsx:147-155 | auto-hide hides the hole and plays the hide cue if and only if the crewmate still showed |
| App.Game.HandleWhack | App.tsx:178-185 | on a showing crewmate (components/Crewmate.tsx:16-20): ignored unless playing; otherwise hide it, tag hit, add exactly 1 to the score, play the hit cue, and schedule the 300 ms clear |
| App.Game.HandleMiss | App.tsx:187-194 | only while playing, on a hidden crewmate whose hole has no tag: tag it missed, play the miss cue once, and schedule the clear; the score never changes |
| App.Game.ClearFeedback | App.tsx:173-175 | the clear callback nulls only that hole's tag |
| Index.CountdownCue | index.tsx:135-141 | a countdown tick plays nothing if the countdown shows 1 or less, and otherwise exactly one tick cue |
| Index.ClockCue | index.tsx:152-156 | a clock tick plays one tick cue exactly when it finds 2 to 5 seconds left, and nothing otherwise |
| Index.CountdownCuesCount | index.tsx:134-142 | a countdown from `c >= 1` plays exactly `c - 1` tick cues, none on the tick that starts play |
| Index.ClockCuesCount | index.tsx:151-157 | a clock from `t >= 1` plays exactly `min(t, 5) - 1` tick cues before the round ends |
| Index.RoundTimeline | index.tsx:122-158 | from start, the countdown plays two tick cues and starts play on its third tick; the 45 s clock runs for 44 ticks, ends on the 45th, and plays four tick cues |
| Index.BestAfter | index.tsx:113-116 | the best score after endGame is at least the old best and the score, is one of them, and changes only when the score beats the best |
| Index.BestAfterExamples | index.tsx:113-116 | a score of 7 over a best of 5 gives 7; a score of 3 over a best of 5 gives 5 |
| Index.ReportText | index.tsx:103-105 | the settled report is never empty: the reply's text when non-empty, the "scanning complete" line for an empty reply, and the "logs wiped" line for a failure |
| Index.InactiveHoles | index.tsx:163 | the filter keeps only hidden holes, each one taken from the grid |
| Index.InactiveHolesSpec | index.tsx:163-164 | the filter keeps every hidden hole, one entry per hidden hole, so it is empty exactly when all nine show |
| Index.InactiveHolesInOrder | index.tsx:163-165 | in a grid whose ids are positions, the kept holes' ids are in range and strictly increase, so the draw indexes the hidden holes in board order |
| Index.HoleAtId | index.tsx:165 | a drawn hole of a well-formed grid sits at the position its id names |
| Index.Respawned | index.tsx:175 | the spawn rewrite shows and recolours exactly the holes carrying `id`, and keeps every id and tag |
| Index.RespawnShowsOne | index.tsx:175 | spawning on a hidden hole shows exactly that crewmate in the drawn colour and keeps its tag; other holes are unchanged and the showing count rises by one |
| Index.HideDelay | index.tsx:170 | the show time is at least 500 ms, and at most 1200 ms within a round |
| Index.SpawnInterval | index.tsx:179 | the spawn interval is at least 350 ms, and at most 800 ms within a round |
| Index.DifficultyMonotone | index.tsx:170-179 | the show time and the spawn interval do not increase as the clock runs down |
| Index.Game.constructor | index.tsx:82-89 | the component mounts idle with score 0, 45 s, the stored best score, the countdown at 3, no report, and the initial grid |
| Index.Game.SetMoles | index.tsx:86 | the `setMoles` setter: the grid becomes the given sequence |
| Index.Game.StartGame | index.tsx:122-129 | start sets score 0, 45 s, countdown 3, an empty report and counting, plays the start cue, and leaves the best score and the grid alone |
| Index.Game.CountdownTick | index.tsx:133-143 | above 1 the countdown goes down by one with a tick cue; at 1 or below it pins to 0 and play starts with no cue |
| Index.Game.EndGame | index.tsx:111-120 | endGame sets ended, replaces the best score only when the score beats it, and starts loading the report |
| Index.Game.ClockTick | index.tsx:150-158 | at `t <= 1` the clock pins to 0 and endGame runs; otherwise it becomes `t - 1`, with a tick cue exactly when `2 <= t <= 5` |
| Index.Game.ReportArrived | index.tsx:96-109 | when the request settles, the report shows the settled text and loading stops; nothing else changes |
| Index.Game.Spawn | index.tsx:161-177 | with no hidden hole nothing happens; otherwise the drawn hidden hole shows recoloured with its tag kept, the pop cue plays, and its auto-hide is scheduled after the show time |
| Index.Game.AutoHide | index.tsx:171-173 | auto-hide hides its hole whether or not it still showed, plays no cue, and leaves other holes unchanged |
| Index.Game.HandleWhack | index.tsx:189-201 | ignored unless playing. On a showing crewmate: hide it, tag hit, add 1 to the score, play the hit cue. On a hidden one: score and grid unchanged. While playing, the clear is scheduled either way |
| Index.Game.HandleMiss | index.tsx:203-211 | only while playing, on a hidden crewmate whose hole has no tag: tag it missed, play the miss cue, and schedule the clear; the score never changes |
| Index.Game.ClearFeedback | index.tsx:200 | the clear callback nulls only that hole's tag |

## Left out

- Audio: services/sounds.ts and the `GameAudio` class are Web Audio calls. Each sound is modelled only as a cue appended to a ghost log.
- Report generation: the remote language-model call of services/gemini.ts and `generateReport` is not modelled. Its outcome is the `Reply` parameter of `Index.Game.ReportArrived`, and the prompt text is not modelled.
- Storage: the stored best score is the constructor's `storedHighScore`. The read `Number(...) || 0` is the requirement `storedHighScore >= 0`. Writes to storage are not modelled; they always equal the `highScore` field.
- Timers, React effects and refs: these are not modelled as time. Each interval or timeout firing is one atomic method call. Handle clearing (`clearTimers`, effect clean-ups) is modelled only as preconditions: the countdown, clock and spawn callbacks require the status in which their interval exists.
- Interleavings of separately queued state updates are not modelled. Each handler's updates are applied together.
- Auto-hide and feedback-clear timeouts are never cancelled. They may fire in any status, and they may fire after the same hole has been re-spawned or re-tagged. The model allows this but proves nothing about such timing.
- App.ShowDuration, App.SpawnRate, Index.HideDelay, Index.SpawnInterval: computed on exact reals. The model does not capture floating-point rounding.
- Crew.Pick: floors the exact product `r * n`, while JavaScript floors the product rounded to a double. A draw whose double product rounds up to an integer `k` gives index `k` in JavaScript and `k - 1` in the model. Either way the index is below `n`, and every index stays reachable.
- App.FormatTime: requires `seconds >= 0`. The clock never goes negative, and the printing of negative numbers is not modelled.
- `isImposter` of types.ts: never set to true by the source, so it is not modelled.
- Rendering: JSX, styling, the starfield, components/GameOverModal.tsx and the appearance of components/Crewmate.tsx are not modelled. The Crewmate click guard (components/Crewmate.tsx:16-20) becomes the precondition of `App.Game.HandleWhack` that the hole is showing.
- Which button is on screen becomes a precondition:
  - App quit (the abort button) requires counting or playing.
  - Index start (the start and re-deploy buttons) requires idle or ended.
