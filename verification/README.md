# Vaporwave time machine: the timing engine in Dafny

This project models the browser-side timing engine of the vaporwave time
service. That engine has three parts:

- the **clock sync and display settings** of the main page (`static/app.js`):
  - the offset between the server's clock and the browser's clock;
  - the corrected instant the clock shows;
  - the 12/24-hour and seconds toggles;
  - removing the seconds from the formatted time;
  - choosing a time zone with a validate-or-keep step;
- the **stopwatch** (`static/stopwatch.js`), with resumable elapsed time and numbered laps with splits;
- the **countdown timer** (same file), with its hour/minute/second inputs, input clamping, presets, a rejected
  non-positive duration, clamped remaining time and a completion that stops it.

Everything is a pure state-transition function over immutable records. The clock
readings (`performance.now()`, `Date.now()`) are integer-millisecond
parameters, and so are the server's response and the browser's
zone validator. The two duration formatters each have a parser as a partner,
and lemmas prove that the text reads back as the duration it came from.

Modules, one per file:

| file | module | models |
|---|---|---|
| optional.dfy | `Optional` | the Some/None datatype |
| jsnumber.dfy | `JsNumber` | `Math.floor(a / b)`, the truncating `%`, `Math.max`, `Math.ceil(a / b)` on integers |
| jsstring.dfy | `JsString` | `toString()` on integers, `padStart(2, '0')`, the regex classes `\d` and `\s`, `trim()` |
| format.dfy | `Format` | `formatStopwatchTime`, `formatTimerTime`, and parsers that read their text back |
| stopwatch.dfy | `Stopwatch` | the stopwatch state machine and its laps |
| timer.dfy | `Timer` | the countdown timer, its inputs, presets and clamp |
| clocksync.dfy | `ClockSync` | `syncServerTime` and the corrected display instant |
| display.dfy | `DisplaySettings` | the toggles, the seconds strip in `formatTime`, and the APPLY ZONE handler |

The model follows the code. These behaviours of the code are easy to miss:

- `stopStopwatch` does not read the clock. The elapsed time stays at the value of the last animation-frame tick.
- A lap also records the last tick's elapsed value rather than reading the clock (`Stopwatch.TickThenLap`).
- `resetStopwatch` and `resetTimer` do not check whether they are running: they stop and then clear. The
  page keeps them from being called while running only by disabling the reset buttons (lines 107 and 217).
- The timer keeps no "completed" flag. After completion, a press of start simply starts it again
  (`Timer.FiveSecondScenario`).
- A timer reset writes the fixed inputs 0 h / 5 min / 0 s and sets the duration to 0. It does not restore the
  last configured duration.
- Stop followed by start restarts the full duration from the inputs. It does not resume from what was left
  (`Timer.StopStartRestartsFull`).
- A rejected start still overwrites the stored duration with the non-positive sum. The assignment on line 206
  comes before the check on line 208.
- A sync whose JSON body has a non-numeric `server_unix_ms` is reported as a success and stores NaN (see
  Findings).

## Model

| member | source | states |
|---|---|---|
| `JsNumber.FloorDiv` | static/stopwatch.js:81-85 | `Math.floor(a / b)` is the unique `q` with `q*b <= a < q*b + b` |
| `JsNumber.Rem` | static/stopwatch.js:83-85 | JavaScript's `%` is `a - b*trunc(a/b)`: it takes the sign of the dividend, its magnitude stays below the divisor, and it completes the truncated quotient back to `a` |
| `JsNumber.Max` | static/stopwatch.js:254 | `Math.max` is one of its arguments and no smaller than either |
| `JsNumber.CeilDiv` | static/stopwatch.js:261 | `Math.ceil(a / b)` is the unique `q` with `q*b - b < a <= q*b` |
| `JsString.NatToDigits` | static/stopwatch.js:87 | `toString()` of a non-negative integer is the digit string denoting it with no leading zero, one digit below 10, at most two below 100 |
| `JsString.IntToString` | static/stopwatch.js:87 | a negative number prints as a minus sign before the digits of its magnitude |
| `JsString.PadStart2` | static/stopwatch.js:87 | `padStart(2, '0')` keeps the text as a suffix, only adds zeros in front, and gives length max(2, length) |
| `JsString.LeadingZeros` | static/stopwatch.js:87 | zeros added in front do not change the number a digit string denotes |
| `JsString.Field2Reads` | static/stopwatch.js:87 | a padded non-negative field is all digits, denotes the number, and has exactly two digits iff the number is below 100 |
| `JsString.Trim` | static/app.js:236 | `trim()` returns a slice of the input; everything outside the slice is `\s`, and the slice has no `\s` at either end |
| `JsString.TrimEmpty` | static/app.js:236-237 | the trimmed custom zone is empty iff the input is all `\s` |
| `Format.SplitSeconds` | static/stopwatch.js:91-94 | for a non-negative second count, the hour/minute/second split has minutes and seconds below 60 and adds back up to the count |
| `Format.SplitMillis` | static/stopwatch.js:80-85 | for non-negative ms, minutes < 60, seconds < 60 and centiseconds < 100; `h*3600000 + m*60000 + s*1000 + cs*10 = ms - ms%10` |
| `Format.SplitOfNormal` | static/stopwatch.js:91-94 | the split of the total of a normal split is that split: it is the only normal split with that total |
| `Format.RenderHmsShape` | static/stopwatch.js:96 | a normal split renders with colons third and sixth from the end, in eight characters iff the hours are below 100 |
| `Format.TwoDigitHours` | static/stopwatch.js:92 | the hours of a non-negative count are below 100 iff the count is below 360000 seconds |
| `Format.TimerShape` | static/stopwatch.js:91-97 | the timer text of a non-negative count has that shape, eight characters iff below 360000 seconds |
| `Format.FormatTimerTime` | static/stopwatch.js:91-97 | for a non-negative count the text is `HH:MM:SS` with colons third and sixth from the end, eight characters iff below 100 hours |
| `Format.DotJoin` | static/stopwatch.js:87 | clock text, a dot, two characters and `0`: the dot is fourth from the end and the clock text keeps its place |
| `Format.FormatStopwatchTime` | static/stopwatch.js:80-88 | for a non-negative count the text ends in `0`, has the dot fourth from the end and colons seventh and tenth, twelve characters iff below 100 hours |
| `Format.SplitJoin` | static/stopwatch.js:87 | a separator third from the end splits the text back into the parts it was joined from |
| `Format.FieldRoundTrip` | static/stopwatch.js:87 | a rendered non-negative field parses back to the number |
| `Format.HmsJoin` | static/stopwatch.js:96 | three readable fields joined with colons parse back to the split |
| `Format.ReadingJoin` | static/stopwatch.js:87 | clock text plus `.`, two centisecond digits and `0` parses back to the reading |
| `Format.HmsRoundTrip` | static/stopwatch.js:96 | a normal split rendered as `HH:MM:SS` parses back to the same split |
| `Format.ReadingRoundTrip` | static/stopwatch.js:87 | a normal reading rendered as `HH:MM:SS.cc0` parses back to the same reading |
| `Format.TimerTextRoundTrip` | static/stopwatch.js:91-97 | `formatTimerTime(sec)` for sec >= 0 reads back as the formatter's split, a normal split totalling exactly `sec` |
| `Format.StopwatchTextRoundTrip` | static/stopwatch.js:80-88 | `formatStopwatchTime(ms)` for ms >= 0 ends in `0` and reads back as the formatter's split: a normal reading with centiseconds below 100 that denotes `ms - ms%10` |
| `Format.FiveMinutesText` | static/stopwatch.js:92-96 | 300 seconds format as `00:05:00` |
| `Stopwatch.Tick` | static/stopwatch.js:158-164 | a tick changes nothing when stopped; when running, elapsed becomes `now - startTime`, and startTime and laps are kept |
| `Stopwatch.Stop` | static/stopwatch.js:115-127 | stop clears `running` and leaves elapsed, laps and start reference unchanged |
| `Stopwatch.Start` | static/stopwatch.js:100-113 | when stopped, start sets `startTime + elapsed = now` and keeps elapsed and laps; when running, the same button stops |
| `Stopwatch.Reset` | static/stopwatch.js:129-138 | reset always ends stopped, with elapsed 0 and no laps, also when it was running |
| `Stopwatch.RecordLap` | static/stopwatch.js:140-156 | no-op when stopped; otherwise it appends lap `(n+1, elapsed, elapsed - previous time)`, keeps the earlier laps, and changes nothing else |
| `Stopwatch.RecordLapWellFormed` | static/stopwatch.js:143-152 | recording a lap keeps lap numbers 1..n contiguous and each split equal to its time minus the previous time |
| `Stopwatch.SplitsSumToLastTime` | static/stopwatch.js:143-152 | the splits of well-formed laps add up to the last lap's time |
| `Stopwatch.Step` | static/stopwatch.js:371-375 | one button press or frame: only reset removes laps, only the lap button adds one (timed with the stored elapsed), and lap and reset read no clock |
| `Stopwatch.InitialValid` | static/stopwatch.js:19-23 | the state at page load satisfies the stopwatch invariant |
| `Stopwatch.StepPreservesValid` | static/stopwatch.js:100-164 | with a non-decreasing clock, every event keeps the invariant; every event except reset leaves elapsed no smaller |
| `Stopwatch.RunPreservesValid` | static/stopwatch.js:100-164 | over any event sequence with a non-decreasing clock, the invariant holds; without a reset, elapsed never decreases |
| `Stopwatch.ReachableLaps` | static/stopwatch.js:140-156 | in every reachable state, splits are non-negative and sum to the last lap's time |
| `Stopwatch.ResumeKeepsElapsed` | static/stopwatch.js:100-103 | a start followed by a tick at the same `now` reproduces the elapsed time from before the start |
| `Stopwatch.TicksNonDecreasing` | static/stopwatch.js:158-161 | with `now1 <= now2`, the later tick shows no less elapsed time |
| `Stopwatch.TickThenLap` | static/stopwatch.js:140-161 | a tick then a lap records the tick's `now - startTime` as the lap time |
| `Stopwatch.LapScenarioFirst` | static/stopwatch.js:140-161 | start at 0, tick at 1500, lap: lap (1, 1500, 1500) |
| `Stopwatch.LapScenarioSecond` | static/stopwatch.js:129-161 | from that state, tick at 2500 and lap: lap (2, 2500, 1000); stop and reset clear everything |
| `Timer.Composed` | static/stopwatch.js:202-206 | the duration of fields holding a normal split is non-negative and splits back into those fields; all-NaN fields give 0 |
| `Timer.PresetInputs` | static/stopwatch.js:321-328 | a non-negative preset writes a normal split that composes back to the preset; a NaN preset writes NaN everywhere |
| `Timer.PresetOfComposed` | static/stopwatch.js:321-328 | fields holding a normal split are exactly what the preset of their duration writes |
| `Timer.Step` | static/stopwatch.js:377-405 | presets and edits do nothing while running; only start sets the timer running, with a positive duration; start and frames keep the inputs; reset stops and writes 0/5/0 |
| `Timer.Stop` | static/stopwatch.js:226-238 | stop clears `running` and keeps the duration, start reference and inputs |
| `Timer.Start` | static/stopwatch.js:200-224 | when stopped, the duration becomes the input sum; a sum <= 0 is rejected and the timer stays stopped; otherwise the timer starts at `now`; when running, the button stops it |
| `Timer.Reset` | static/stopwatch.js:240-248 | reset ends stopped, with duration 0 and inputs 0/5/0 |
| `Timer.RemainingMs` | static/stopwatch.js:253-254 | remaining time is >= 0; it is 0 exactly when the duration has passed; otherwise remaining plus time passed equals the duration |
| `Timer.Tick` | static/stopwatch.js:250-272 | stopped: idle. Running with time left: shows the remaining seconds rounded up. No time left: completes and stops |
| `Timer.Clamp` | static/stopwatch.js:384-391 | NaN or a negative value becomes 0; above the limit (23 h, 59 min/s) becomes the limit; in range it is left as typed |
| `Timer.ClampIdempotent` | static/stopwatch.js:384-391 | clamping twice is clamping once |
| `Timer.EditField` | static/stopwatch.js:382-393 | an edit changes only the edited field, and clamps it |
| `Timer.ClampedInputsBounded` | static/stopwatch.js:384-391 | clamped inputs describe between 0 and 86399 seconds |
| `Timer.Preset` | static/stopwatch.js:321-332 | a preset writes only the inputs, leaving running state, duration and start reference alone |
| `Timer.PresetRoundTrip` | static/stopwatch.js:321-328 | a non-negative preset split into the fields adds back up to the preset, with minutes and seconds below 60 |
| `Timer.PresetThenStart` | static/stopwatch.js:200-213 | after a positive preset, start runs for exactly the preset, and the idle display reads back as it |
| `Timer.StepPreservesValid` | static/stopwatch.js:200-245 | every event keeps the invariant that a running timer has a positive duration |
| `Timer.RemainingBounds` | static/stopwatch.js:253-254 | from the start on, remaining time is in `[0, duration*1000]` and does not grow as the clock advances |
| `Timer.ShownSecondsBounds` | static/stopwatch.js:261 | while time is left, the shown seconds are between 1 and the duration |
| `Timer.CompletionIsFinal` | static/stopwatch.js:294-295 | completion leaves the timer stopped, so the next tick is idle |
| `Timer.StopStartRestartsFull` | static/stopwatch.js:206-213 | stop then start restarts the countdown from the full input duration |
| `Timer.FiveSecondScenario` | static/stopwatch.js:250-259 | 0/0/5 started at 0: shows 1 at 4999 ms, completes at 5000 ms, and can be started again |
| `Timer.ResetShowsFiveMinutes` | static/stopwatch.js:240-245 | after a reset the inputs describe 300 seconds and the timer is stopped with duration 0 |
| `ClockSync.SyncAsWritten` | static/app.js:35-59 | success iff a JSON body arrives; a numeric server time gives offset `server - now`, and a non-numeric one gives NaN; non-OK or thrown keeps the offset |
| `ClockSync.Sync` | static/app.js:35-59 | success iff a numeric server time arrives, which gives offset `server - now`; any failure leaves the offset unchanged |
| `ClockSync.SyncAgreesOnNumbers` | static/app.js:39-45 | the corrected and as-written syncs agree on every response except a non-numeric field |
| `ClockSync.DisplayInstant` | static/app.js:151 | the displayed instant is `Date.now() + offsetMs`, and it is invalid exactly when the offset is NaN |
| `ClockSync.DisplayFollowsServer` | static/app.js:42-45 | after a sync at local time t0 with server time s, the display at local time t shows `s + (t - t0)` |
| `ClockSync.SyncAllFinite` | static/app.js:40-59 | a finite offset stays finite through any sequence of syncs |
| `ClockSync.SyncAllNoSuccess` | static/app.js:55-59 | with no successful sync in a sequence the offset is unchanged |
| `ClockSync.SyncAllLastSuccess` | static/app.js:43-45 | after a sequence of syncs the offset is the one set by the last successful sync, whatever failures follow it |
| `ClockSync.NonNumericFieldPoisonsOffset` | static/app.js:43-45 | as written, a body with a non-numeric field reports success, stores NaN, and leaves no valid display instant |
| `DisplaySettings.ToggleUse12` | static/app.js:221-225 | the 12H button flips `use12` and nothing else |
| `DisplaySettings.ToggleSeconds` | static/app.js:228-232 | the SECONDS button flips `showSeconds` and nothing else |
| `DisplaySettings.TogglesInvolutive` | static/app.js:221-232 | toggling twice restores the preferences, and the two toggles commute |
| `DisplaySettings.FindSecondsField` | static/app.js:121 | the search returns the leftmost position where `:\d{2}(\s\|$)` matches, or reports that there is none |
| `DisplaySettings.StripSeconds` | static/app.js:121 | with no match the text is unchanged; otherwise the colon and two digits of the leftmost match are removed and the following whitespace is kept |
| `DisplaySettings.TimeText` | static/app.js:119-124 | with seconds shown the text is unchanged; hidden, it is stripped |
| `DisplaySettings.StripClockSeconds` | static/app.js:119-124 | `h:mm:ss` followed by nothing, or by text that starts with whitespace, becomes `h:mm` followed by the same text |
| `DisplaySettings.StripExample12` | static/app.js:121 | `12:34:56 PM` becomes `12:34 PM` |
| `DisplaySettings.StripExample24` | static/app.js:121 | `12:34:56` becomes `12:34` |
| `DisplaySettings.Candidate` | static/app.js:236-237 | the candidate zone is the trimmed custom input if non-empty, else the selected value if non-empty, else `local` |
| `DisplaySettings.ApplyZone` | static/app.js:235-263 | applied iff the candidate is `local` or passes validation; then the zone is the candidate and a non-empty custom input is cleared; otherwise nothing changes |
| `DisplaySettings.ApplyKeepsZoneOk` | static/app.js:239-245 | the committed zone is always `local` or a zone the validator accepted |
| `DisplaySettings.InvalidZoneRejected` | static/app.js:241-262 | an invalid custom zone such as `Not/AZone` is rejected and the zone in use is kept |

## Findings

| source | as written | input that shows it | evidently intended | confidence | as-written member | corrected member |
|---|---|---|---|---|---|---|
| static/app.js:43-45 | `offsetMs = Number(data.server_unix_ms) - Date.now()` is stored even when the server time is not a number, and the sync is reported as done | a response with status 200 and body `{}` | treat a non-numeric server time like the other sync failures and keep the previous offset | medium, not executed | `ClockSync.SyncAsWritten` | `ClockSync.Sync` |

`ClockSync.NonNumericFieldPoisonsOffset` exhibits the as-written behaviour: the offset becomes NaN and the display has no valid instant. `ClockSync.SyncAllFinite` proves the corrected behaviour: the offset stays a number through any sequence of syncs. The server in `main.go` always sends a numeric `server_unix_ms`, so this path is latent.

## Left out

- DOM writes, button text and enable/disable, colour coding, and the pulse, glitch and celebration effects: presentation only.
- Audio (`playBeep`, `playTimerCompleteSound`), notifications and `alert`: foreign browser APIs. A rejected timer start and a rejected zone are reported as outcomes instead.
- `requestAnimationFrame`, `setTimeout`, `setInterval` and the `beforeunload` cleanup: one frame is one call to a pure `Tick`.
- The text `Intl.DateTimeFormat` and `toLocaleTimeString` produce (`formatTime`, `formatDate`): a foreign library.
  - The formatted text is a parameter of `DisplaySettings.TimeText`.
  - Whether a zone name is accepted is the parameter `valid`.
  - The fallback formatting when the formatter throws is not modelled.
- The guest counter and `animateCounter`: network I/O and floating-point interpolation.
- Clipboard copy (app.js:269-307): presentation only; it copies the displayed text and changes no state.
- The keyboard shortcuts (stopwatch.js:407-440): each calls `.click()` on a button, and a disabled button ignores it. So `r` cannot reset a running stopwatch (the button is disabled at line 107) and Escape cannot reset a running timer (line 217). The model's events are the button handlers themselves.
- Stopwatch.Start and Timer.Start: `startStopwatch` and `startTimer` run one frame synchronously (lines 109 and 220), and that frame reads the clock again. The model leaves this frame out: a frame at the start's own reading changes nothing (`Stopwatch.ResumeKeepsElapsed`; the timer would show its full duration), and a later reading is an ordinary `Frame`/`AnimationFrame` event.
- Stopwatch.Step and Timer.Step: a reset event is accepted while running, although the page disables both reset buttons then. Timer.Step ignores presets and edits while running, because those controls are disabled too (`disableTimerInputs`, lines 314-319). So the model admits every run the page allows and a few more, and the invariants proved over it hold for the page as well.
- `main.go`: the HTTP server, the time handler's nanosecond-to-millisecond division, and the inline page script, which duplicates `app.js`.
- Floating-point time:
  - All times are whole milliseconds, so timer remaining time is `duration*1000 - (now - startTime)` and the shown seconds are a ceiling division.
  - For a non-negative fractional millisecond count, `formatStopwatchTime` gives the same text as for its floor.
- `Date` range limits (an instant beyond ±8.64e15 ms is invalid): not modelled.
- `parseInt` on the text of an input field: a field is represented by what `parseInt` returns, a number or NaN.
- Format.SplitSeconds: its arithmetic is defined for negative counts with JavaScript's semantics, but properties are proved only for non-negative counts. Every caller passes a non-negative count once the inputs have been clamped.
- Format.SplitMillis: likewise, properties are proved only for non-negative millisecond counts. The page clock is monotonic, so elapsed time and splits are never negative (`Stopwatch.ReachableLaps`).
