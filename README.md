# CalmClock timer core in Dafny

CalmClock is a browser Pomodoro timer. Focus intervals alternate with short
breaks, and every `longBreakEvery`-th focus interval is followed by a long
break. Each completed interval is written to a session log. The user can
attach a note to the latest entry, clear the log, and read today's focus
count, today's focus minutes and the best streak of consecutive focus days.

This project models the core of `script/app.js`:

- `Machine` holds the timer's module-level variables and the log as one
  `State` value. Each timer function and event handler (`setType`,
  `startTimer`, `pauseTimer`, `resetTimer`, `tick`, `onSessionComplete`, the
  type selector, the preset chips, the settings dialog's Save, the note form,
  the Clear button) is a function from the old state to the new one. The
  timer's properties are proved here.
- `App.CalmClock` is the same timer as an object whose fields are those
  variables. Its methods update the fields in place. Each method is proved to
  perform exactly the transition of the `Machine` function with the same name.
- `SessionLog` holds the log entry, `findIndex`, and the note target and note
  write.
- `Stats` covers today's statistics, the set of focus days, and the
  best-streak loop (`computeBestConsecutiveStreak`). The loop is a method
  proved to return the length of a longest run of consecutive days.
- `Config` holds the settings record, `clampInt` and the settings form,
  `typeLenMin`, `nextTypeAfterFocus` and the focus-meta arithmetic of
  `renderSessionMeta`.
- `Format` covers `dateKey`, `fmtTime`, the timer text, `humanDuration` and
  `escapeHTML`. Each has a decoder, and the round trips are proved.
- `Text` covers `String.prototype.trim`, `parseInt`, `String(n)` and
  `padStart(2, "0")` on integers.
- `JsMath` covers `Math.max`, `Math.min`, `Math.round(a / b)` for integers,
  and JavaScript's `%`.

Encodings:

- `timerOn` says whether a countdown interval is installed (`timerId !== null`).
- `sessionStartTs == 0` stands for `null` and `lastLoggedId == ""` for
  `null`. The source only tests these for truthiness, under which the two
  agree.
- `Date.now()` and the id from `cryptoRandomId()` are the parameters `now` and
  `id`. The answer to `confirm(...)` is the boolean `confirmed`.
- Days are integer ordinals produced by a function `dayOf` from a start
  timestamp. This stands for `dateKey(new Date(start))` together with the
  midnight-to-midnight difference the streak loop computes.

Where the code does something one might expect otherwise, the model follows the code:

- Pressing Start twice is not always the same as pressing it once. When the
  first press's immediate tick ends the interval (Start at 00:01 with
  auto-advance off), the second press starts the next interval
  (`Machine.StartTwiceIff`).
- A later note replaces an earlier note on the same entry
  (`SessionLog.NoteOverwrites`).
- `completedFocusCount` is never reset after a long break, although its
  comment at script/app.js:63 describes it as cycles since the last long break. The rotation uses the running total,
  and with a fixed cadence that gives the same result
  (`Config.RotationPeriodic`, `Config.LongBreakEveryNth`).
- Start's own immediate tick counts as the first second. A fresh focus
  interval of `L` minutes therefore completes after Start plus `L * 60 - 1`
  interval ticks (`Machine.FocusIntervalRunsToCompletion`).

## Model

| member | source | states |
|---|---|---|
| `Machine.Init` | script/app.js:56-65 | At page load: the stored settings and log, focus at its full configured length, stopped, no start time, a zero focus count and no last id; with valid settings the timer invariant holds |
| `Machine.SetType` | script/app.js:217-231 | `setType` keeps the timer invariant (stopped, no interval installed) |
| `Machine.StartTimer` | script/app.js:233-244 | No-op while running; otherwise the invariant is kept, the log only grows, and it grows by exactly one entry iff the immediate tick was the last second; a start at 2 s or more leaves the log and `lastLoggedId` alone |
| `Machine.PauseTimer` | script/app.js:246-253 | Pausing keeps the timer invariant |
| `Machine.ResetTimer` | script/app.js:255-268 | Resetting keeps the timer invariant |
| `Machine.Tick` | script/app.js:270-280 | `secondsLeft` never goes below 0; a running timer is above 0; the interval tracks `running`; the log gains one entry iff the tick reaches 0, and otherwise nothing in the log changes |
| `Machine.PlannedSec` | script/app.js:285 | The planned length is at least one minute |
| `Machine.LoggedEntry` | script/app.js:284-295 | The logged entry has the new id, the current type, `end = now` and an empty note; `1 <= durationSec <= 3 * plannedSec`; start is the kept start time, or `now - plannedSec * 1000` with duration `plannedSec` when there is none; an in-range elapsed time is logged as is, one above `3 * plannedSec` as `3 * plannedSec`, one below a second as 1 |
| `Machine.OnSessionComplete` | script/app.js:282-337 | Completion keeps the invariant and the settings, and the log becomes the old log plus exactly the logged entry |
| `Machine.SelectType` | script/app.js:344-352 | A declined switch while running changes nothing; otherwise it is exactly `setType(t)`: the chosen type at full length, stopped, the start time cleared, the log kept |
| `Machine.ApplyPreset` | script/app.js:354-370 | A preset loads focus with `mins * 60` seconds, stopped, and keeps the start time, the log, the settings, the focus count and the last logged id |
| `Machine.SaveSettings` | script/app.js:430-448 | The settings become the clamped form (within the form's ranges), the countdown is reloaded at the current type's new length, and nothing else changes: the timer is neither stopped nor started, and the type, start time, count, last id and log stay |
| `Machine.SubmitNote` | script/app.js:399-417 | The log becomes `AttachNote` of the old log, `lastLoggedId` and the text, and nothing else changes; every entry keeps its id in place |
| `Machine.ClearLogs` | script/app.js:388-396 | A confirmed clear of a non-empty log empties it, forgets `lastLoggedId` and changes nothing else; otherwise nothing changes |
| `Machine.Step` | script/app.js:340-417 | Every event the page handles keeps the timer invariant (valid settings, an interval exactly while running, running implies at least 1 s left) |
| `Machine.SetTypeLastWins` | script/app.js:217-231 | Only the last `setType` counts; `resetTimer` equals `setType` of the current type |
| `Machine.SetTypeAndResetLoad` | script/app.js:217-268 | `setType(t)` loads `t` and `resetTimer` reloads the current type at full length, with no start time and stopped; the log and counters are untouched |
| `Machine.PauseKeepsProgress` | script/app.js:246-253 | Pause stops the timer but keeps `secondsLeft` and the start time; it is a no-op when stopped, and idempotent |
| `Machine.PauseThenStartResumes` | script/app.js:233-253 | Pause then Start equals one tick of the running timer, so the original start time is kept |
| `Machine.StartFromNonFinal` | script/app.js:233-244 | Starting with 2 s or more left runs from the kept start time (or `now`) with one second gone |
| `Machine.CompletionEffects` | script/app.js:282-337 | Completion appends one entry and points `lastLoggedId` at it, counts a focus interval, and picks the next type by rotation (focus after a break); with auto-advance off it loads that type stopped, with it on it runs from `now` one second in |
| `Machine.RotationAfterCompletion` | script/app.js:119-123 | After focus the count goes up by one and the next type is a long break iff the count is a multiple of `longBreakEvery`; after a break the next type is focus |
| `Machine.StartRunningIff` | script/app.js:233-244 | After Start the timer runs iff it was running, had 2 s or more left, or auto-advance is on; when not running, the next interval is loaded |
| `Machine.StartTwiceIff` | script/app.js:233-244 | A second Start changes nothing iff the first one left the timer running |
| `Machine.TickStopsIff` | script/app.js:270-280 | A tick stops the timer iff it reaches 0 with auto-advance off; it logs iff it reaches 0 |
| `Machine.TicksCountDown` | script/app.js:270-280 | Before reaching 0, `k` ticks only subtract `k` seconds |
| `Machine.CountdownCompletes` | script/app.js:270-280 | A running countdown completes after exactly `secondsLeft` ticks |
| `Machine.FocusIntervalRunsToCompletion` | script/app.js:217-337 | Loading focus, pressing Start, then `L * 60 - 1` ticks logs exactly one focus entry (earlier entries kept, duration within `3 * L * 60`), counts it, and with auto-advance off loads the rotation's break, stopped |
| `Machine.NoteTargetAfterAppend` | script/app.js:297-300 | An appended entry with a fresh id named by `lastLoggedId` is the note target |
| `Machine.TickLogsOrAppends` | script/app.js:270-300 | A tick either leaves the log and `lastLoggedId` alone or appends one entry with the new id and names it |
| `Machine.StartLogsOrAppends` | script/app.js:233-300 | The same holds for Start |
| `Machine.StepKeepsNoteOnLatest` | script/app.js:297-300 | With fresh ids, every event keeps the note form aimed at the latest log entry |
| `Machine.PresetLogsAgainstSettings` | script/app.js:285 | A preset's completion is capped at three times the configured focus length, not the preset's, and keeps the earlier start time |
| `Machine.StartTimerAsWritten` | script/app.js:233-244 | The source's order of tick and `setInterval`; on a start with 2 s or more left it is exactly the corrected `StartTimer` with one interval |
| `Machine.StartAtLastSecondLeavesStrayInterval` | script/app.js:242-243 | Start at 00:01 as written leaves one interval firing while stopped (auto-advance off), or two intervals while running (auto-advance on) |
| `Machine.StrayIntervalIff` | script/app.js:242-243 | As written, the state equals the corrected one, and there is one interval too many iff the start's own tick completes the interval |
| `App.CalmClock.constructor` | script/app.js:56-65 | The fields start as `Machine.Init` of the stored settings and log, and the invariant holds |
| `App.CalmClock.SetType` | script/app.js:217-231 | In-place `setType` performs `Machine.SetType` |
| `App.CalmClock.StartTimer` | script/app.js:233-244 | In-place `startTimer` performs `Machine.StartTimer` |
| `App.CalmClock.PauseTimer` | script/app.js:246-253 | In-place `pauseTimer` performs `Machine.PauseTimer` |
| `App.CalmClock.ResetTimer` | script/app.js:255-268 | In-place `resetTimer` performs `Machine.ResetTimer` |
| `App.CalmClock.Tick` | script/app.js:270-280 | In-place `tick` performs `Machine.Tick` |
| `App.CalmClock.OnSessionComplete` | script/app.js:282-337 | In-place completion, including `logs.push`, performs `Machine.OnSessionComplete` |
| `App.CalmClock.SelectType` | script/app.js:344-352 | The type selector's handler performs `Machine.SelectType` |
| `App.CalmClock.ApplyPreset` | script/app.js:354-370 | The preset handler performs `Machine.ApplyPreset` |
| `App.CalmClock.SaveSettings` | script/app.js:430-448 | The Save handler performs `Machine.SaveSettings` |
| `App.CalmClock.SubmitNote` | script/app.js:399-417 | The note handler performs `Machine.SubmitNote` |
| `App.CalmClock.WriteNote` | script/app.js:413 | `logs[idx].note = txt` changes only that entry's note |
| `App.CalmClock.ClearLogs` | script/app.js:388-396 | The Clear handler performs `Machine.ClearLogs` |
| `SessionLog.FindIndex` | script/app.js:409 | `findIndex` returns the first index carrying the id, or -1 iff none does |
| `SessionLog.NoteTarget` | script/app.js:406-411 | The note goes to the first entry with `lastLoggedId` when that is set and present, otherwise to the last entry |
| `SessionLog.AttachNote` | script/app.js:399-414 | Blank text or an empty log changes nothing; otherwise only the target entry's note becomes the trimmed text, with the length and every other entry kept |
| `SessionLog.AttachNoteInPlace` | script/app.js:413 | The note handler's result is a one-entry in-place update of the log |
| `SessionLog.SameIdsSameTarget` | script/app.js:406-411 | The note target depends on the entries' ids alone |
| `SessionLog.NoteOverwrites` | script/app.js:413 | A second note on the same entry replaces the first |
| `Config.ClampInt` | script/app.js:450-454 | Non-numeric text gives the fallback; a parsed value ends up in `[min, max]`, unchanged when already in range, and at the nearer bound otherwise |
| `Config.ClampNonNumeric` | script/app.js:433 | `clampInt("abc", 1, 180, 25) == 25` |
| `Config.ClampTooLarge` | script/app.js:433 | `clampInt("500", 1, 180, 25) == 180` |
| `Config.ClampTooSmall` | script/app.js:433 | `clampInt("0", 1, 180, 25) == 1` |
| `Config.SettingsFromForm` | script/app.js:432-439 | Each saved number is `clampInt` of its field with that field's range and default, so all lie within the form's ranges; the toggles are copied |
| `Config.TypeLenMin` | script/app.js:129-133 | The configured length is at least 1 minute under valid settings, and at most 180 under form ranges |
| `Config.NextTypeAfterFocus` | script/app.js:119-123 | Never focus; a long break iff the count is a multiple of the cadence |
| `Config.LongBreakEveryNth` | script/app.js:119-123 | Of the first `n` focus completions, exactly `n / every` are followed by a long break |
| `Config.RotationPeriodic` | script/app.js:119-123 | The rotation repeats every `longBreakEvery` focus intervals |
| `Config.SessionMeta` | script/app.js:145-146 | `toLong` and the ordinal lie in `[1, every]` and add up to `every + 1` |
| `Config.SessionMetaCountsDown` | script/app.js:145-146 | A long break is due after exactly `toLong` more focus intervals, and not before |
| `Stats.TodayFocus` | script/app.js:182 | Exactly the focus entries whose start falls on today, and no more entries than the log has |
| `Stats.SumDurations` | script/app.js:183 | The empty log totals 0, a one-entry log totals its duration; entries of at least one second each total at least one second apiece |
| `Stats.SumAppend` | script/app.js:183 | The total is additive over concatenation; with the empty and one-entry totals this fixes it as the sum of the durations |
| `Stats.Today` | script/app.js:182-185 | The session count is the number of today's focus entries; minutes are their total seconds divided by 60, rounded to the nearest |
| `Stats.TodayAfterAppend` | script/app.js:182-183 | Appending a focus entry for today adds one session and its duration; any other entry changes nothing |
| `Stats.TodayIgnoresOthers` | script/app.js:182-185 | An entry that is not a focus entry for today leaves today's statistics unchanged |
| `Stats.DaysWithFocus` | script/app.js:188-190 | Every focus entry's day is in the set, which has at most as many days as the log has entries |
| `Stats.DaysComeFromFocus` | script/app.js:188-190 | Every day in the set is the day of some focus entry |
| `Stats.SortedDays` | script/app.js:197 | The days in strictly increasing order, each exactly once |
| `Stats.BestStreak` | script/app.js:194-208 | The longest run of consecutive days: 0 iff there are no days, and at most the number of days |
| `Stats.LongestRunUnique` | script/app.js:194-208 | The longest-run length is unique |
| `Stats.StreakOfGappedDays` | script/app.js:194-208 | The days {1, 2, 3, 5} have a best streak of 3 |
| `Stats.StreakOfNoDays` | script/app.js:195 | No days give a best streak of 0 |
| `Stats.StreakOfOneDay` | script/app.js:200 | One day gives a best streak of 1 |
| `Format.DateKey` | script/app.js:102-108 | `YYYY-MM-DD` reads back as the year, month and day it was made from |
| `Format.DateKeyInjective` | script/app.js:102-108 | Different dates give different keys |
| `Format.FmtTime` | script/app.js:110-112 | below 100, each part is exactly two characters: the text is five characters with `:` at index 2 (zero-padded `mm:ss`); for any non-negative numbers it reads back as the minutes and seconds |
| `Format.TimerText` | script/app.js:136-140 | The timer text reads back as minutes and seconds below 60 that add up to `secondsLeft` |
| `Format.HumanDuration` | script/app.js:114-117 | below 60 rounded minutes the text has no hours part (no `h`); from 60 on it is `Hh Mm` with hours `m / 60` and minutes `m % 60 < 60`; both read back as the rounded number of minutes `m` |
| `Format.EscapeHTML` | script/app.js:210-214 | Escaped text contains no `<`, `>`, `"` or `'` |
| `Format.EscapeRoundTrip` | script/app.js:210-214 | Unescaping the escaped text gives back the original |
| `Text.Trim` | script/app.js:401 | The result is the slice of the input between its leading and its trailing whitespace: empty iff the input is all whitespace, otherwise starting and ending with non-whitespace |
| `Text.TrimIdempotent` | script/app.js:401 | Trimming twice is trimming once |
| `Text.ParseInt` | script/app.js:451 | `parseInt` of a plain numeral is its value; empty or blank text, and text that starts with neither whitespace, a sign nor a digit, is `NaN` (so `clampInt` falls back to the default) |
| `Text.ParseIntSkipsSpace` | script/app.js:451 | Leading whitespace does not change what `parseInt` reads |
| `Text.ParseIntStopsAtText` | script/app.js:451 | `parseInt` reads a numeral followed by non-digit text as the numeral's value |
| `Text.ParseIntOfString` | script/app.js:451 | `parseInt(String(n)) == n` |
| `Text.Pad2` | script/app.js:105-106 | `padStart(2, "0")` keeps the text as a suffix and fills up to two characters with zeros |
| `Text.NatToString` | script/app.js:111 | `String(n)` is a decimal numeral of `n` with no leading zero |
| `JsMath.RoundDiv` | script/app.js:115 | `Math.round(a / b)` is the nearest integer, with halves rounded up |

## Left out

- Writing to the DOM, button enabling, `renderLogs` and `typeLabel` are not modelled. Of `renderTimer` and `renderSessionMeta` only the timer text and the focus-meta arithmetic are kept.
- `localStorage` and JSON are not modelled. The settings and log loaded at page load are constructor parameters, and `setLogs` writes to the `logs` field.
- Settings read from storage are merged over the defaults without clamping. The timer needs positive lengths and a positive cadence, so `Machine` requires `ValidSettings` and `App.CalmClock.constructor` requires it of the stored settings. A page loaded with a zero or negative stored length is not modelled. On that input the source recurses without bound: with every length reached by the rotation at 0 or below and auto-advance on, `startTimer` ticks, the tick completes at once, and the completion starts the next interval (script/app.js:233-337). Each level appends a log entry (script/app.js:299), and the call stack grows until JavaScript throws a `RangeError`.
- `setInterval` and `clearInterval` are reduced to the `timerOn` flag. Interval firings are the `IntervalFired` event, or explicit `Tick` calls. The interval's one-second period and timer drift are not modelled.
- The midnight poll that refreshes `todayKey` is not modelled. Today is a parameter of the statistics.
- The completion sound and its swallowed errors are not modelled.
- `confirm` is a boolean parameter. The `alert` shown on an empty log has no effect on the state and is not modelled.
- Exporting the log as a JSON download is not modelled.
- `cryptoRandomId` is the parameter `id`. `Machine.StepKeepsNoteOnLatest` assumes it is fresh.
- `Date` handling is reduced to two things: `now` is an integer in milliseconds, and `dayOf` maps a start time to an integer day ordinal.
- `Stats.BestStreak` works on day ordinals, so a DST transition, which makes the source's day difference differ from 1 and breaks a streak, is not captured. The source sorts the keys as strings. That agrees with date order only for four-digit years, and the model uses numeric order.
- `Format.DateKey` takes the year, month and day as integers. The local-time `Date` getters are not modelled.
- Floating point is not modelled: every number is an unbounded integer. `Config.ClampInt` parses digits exactly, without rounding above 2^53. `parseInt`'s hexadecimal `0x` prefix is not modelled, because a radix of 10 is passed.
- `Machine.ApplyPreset` takes the preset's minutes as an integer. `Number()` of the `data-min` attribute is not modelled, and neither is its `NaN` for a bad attribute.
- `Machine.SubmitNote`: in the source, an id shared by several entries would send the note to the first of them. The model does the same, and `StepKeepsNoteOnLatest` states its property only for fresh ids.

## Findings

| source | as written | input that shows it | evidently intended | confidence | as-written member | corrected member |
|---|---|---|---|---|---|---|
| script/app.js:242-243 | `startTimer` runs its immediate `tick()` first and only then installs `setInterval(tick, 1000)`. When that tick completes the interval, the completion's `clearInterval` runs before the new interval exists, so that completion does not clear it. With auto-advance off, the new interval's id is stored in `timerId` while `running` is false. With auto-advance on, the nested `startTimer` installs a second interval, and line 243 then overwrites that interval's id in `timerId`. | Pause at 00:01, then press Start. With auto-advance off, the page shows the next interval stopped while the stray interval counts it down. Only a reset (257), a type switch (222), a preset (362) or its own completion at 00:00 (275) clears it. At 00:00 it logs a break (or focus) that was never started. The entry has `start = end - planned * 1000` and the planned duration, and `lastLoggedId` points at it (286-300). Pressing Start while the stray interval is still counting overwrites `timerId` at line 243. The stray interval is then lost for good: two intervals run, and neither Reset nor a type switch clears the lost one. With auto-advance on, two intervals run, so the next interval counts down at double speed. The interval whose id was overwritten is lost, so Pause clears only one of them. | A countdown interval is installed exactly while the timer runs | not executed; high | `Machine.StartTimerAsWritten`, `Machine.StartAtLastSecondLeavesStrayInterval`, `Machine.StrayIntervalIff` | `Machine.StartTimer`, `Machine.Step` |
