# Pomodoro key timer — Dafny model

This project models the countdown controller behind a Stream Deck "pomodoro" key
(`PomodoroTimer` in `src/actions/pomodoro.ts`). The key shows a 25-minute
countdown as `M:SS`. A short press starts or pauses it. A press held for at least
600 ms resets it to 25:00. While it runs, a one-second interval takes a second off
and shows the new count, until the count reaches zero and the timer stops itself.

The model is functional:

- `Pomodoro.State` is an immutable record of the controller's fields: `remaining`,
  `running`, the kept interval handle, the set of armed (`live`) interval handles,
  and the pending key-down time `pressStart`.
- `Pomodoro.Step(state, event)` handles one host event: `WillAppear`,
  `KeyDown(now)`, `KeyUp(now)` or `Tick`. It returns the next state and the count
  written to the key, if any. The key's text is `FormatTime` of that count.
- `TimeFormat.FormatTime` is the `M:SS` renderer. It follows JavaScript's
  arithmetic: `Math.floor`, the truncating `%`, and `padStart`.
- `TimeFormat.ParseTime` reads a title back. It is the partner used to prove that
  rendering loses nothing.
- `PomodoroRuns.Run` feeds a sequence of events to `Step`. The properties of whole
  runs are stated as lemmas.

The interval timers are modelled as handles rather than as a bare flag. This keeps
"at most one armed tick source" a real invariant (`Pomodoro.Valid`), not a
restatement of `running`. Wall-clock readings arrive as the `now` of key events.

Files: `wrappers.dfy` (Option), `decimal.dfy` (decimal numerals),
`time_format.dfy` (rendering and reading titles), `pomodoro.dfy` (state and
events), `pomodoro_runs.dfy` (event sequences and their properties).

There is one fixed 25-minute countdown (`25 * 60`, pomodoro.ts:13). It has no
work/break phases, no configurable duration and no cycle counter; the `timer`
setting is declared but never read. A press of exactly 600 ms is long (`>=`,
pomodoro.ts:43).

## Model

| member | source | states |
|---|---|---|
| Decimal.NatToString | src/actions/pomodoro.ts:115 | A number in the title is a non-empty run of digits with no leading zero (single-digit exactly below 10) |
| Decimal.ParseNatIff | src/actions/pomodoro.ts:115 | A digit string reads back as `n` exactly when it is the rendering of `n`, so rendering numbers is injective and lossless |
| Decimal.IntToString | src/actions/pomodoro.ts:115 | `toString()` of an integer: a leading '-' exactly for negative values, followed by the canonical digits of its magnitude |
| Decimal.NatToStringInjective | src/actions/pomodoro.ts:115 | Two numbers share a rendering only if they are equal |
| TimeFormat.JsRem | src/actions/pomodoro.ts:114 | JavaScript's `%` by its definition: it differs from the dividend by a multiple of the divisor, is smaller than the divisor in magnitude, and never has the opposite sign of the dividend |
| TimeFormat.JsRemDetermined | src/actions/pomodoro.ts:114 | Those properties pin the value down: any value with them is JavaScript's remainder, and for a non-negative count it is the ordinary `n % 60` |
| TimeFormat.PadStart | src/actions/pomodoro.ts:115 | `padStart(2, "0")`: the result has length max(length, width), ends with the input, and is filled with the pad character in front |
| TimeFormat.FormatTime | src/actions/pomodoro.ts:112-116 | The renderer itself (`Math.floor`, truncating `%`, `padStart(2, "0")`); its properties are stated by FormatTimeShape, ParseTimeIff and the example lemmas below |
| TimeFormat.FormatTimeShape | src/actions/pomodoro.ts:112-116 | For any count `n >= 0` the title is the unpadded minutes `n / 60`, a colon, then the two digits of `n % 60` |
| TimeFormat.ParseFormatRoundTrip | src/actions/pomodoro.ts:112-116 | Reading the title of `n >= 0` gives back `m*60 + s == n` |
| TimeFormat.FormatParseRoundTrip | src/actions/pomodoro.ts:112-116 | Every text read as `n` is exactly the title of `n` |
| TimeFormat.ParseTimeIff | src/actions/pomodoro.ts:112-116 | A text reads as `n` if and only if it is the title of `n` |
| TimeFormat.FormatTimeInjective | src/actions/pomodoro.ts:112-116 | Different non-negative counts never show the same title |
| TimeFormat.FormatTime754 | src/actions/pomodoro.ts:112-116 | 754 seconds show as "12:34" |
| TimeFormat.FormatTime59 | src/actions/pomodoro.ts:112-116 | 59 seconds show as "0:59" (minutes not padded) |
| TimeFormat.FormatTime0 | src/actions/pomodoro.ts:112-116 | 0 seconds show as "0:00" |
| TimeFormat.FormatTime1500 | src/actions/pomodoro.ts:13 | The full duration `25 * 60` shows as "25:00" |
| TimeFormat.FormatTimeNegative | src/actions/pomodoro.ts:113-115 | A negative count shows signed fields: -1 as "-1:-1", -61 as "-2:-1", -60 as "-1:00" |
| Pomodoro.Init | src/actions/pomodoro.ts:18-23 | The controller starts valid, at the full 25 minutes, stopped, with nothing armed and no press pending |
| Pomodoro.IsLongPress | src/actions/pomodoro.ts:43 | A press is long when it lasted at least 600 ms; the boundary is stated by LongPressBoundary |
| Pomodoro.ClearInterval | src/actions/pomodoro.ts:101-104 | Disarming removes only the kept handle from the armed set and forgets it. A leaked interval stays armed. The countdown, the running flag, the pending press and the next handle are unchanged. In a valid state nothing is left armed |
| Pomodoro.Start | src/actions/pomodoro.ts:56-85 | Starting a running timer changes nothing, so no second interval is armed. Otherwise the timer runs with time left: a count at or below 0 is first restored to 25 minutes, and a positive count is kept. Exactly one interval is armed, under a fresh handle |
| Pomodoro.Pause | src/actions/pomodoro.ts:87-97 | Pausing keeps `remaining` exactly and stops the timer. Pausing a stopped timer is a no-op. From a valid state no interval is left armed |
| Pomodoro.Reset | src/actions/pomodoro.ts:99-110 | From any state: stopped at 25 minutes, and only the kept handle is disarmed; that count is shown. From a valid state nothing is left armed |
| Pomodoro.Fire | src/actions/pomodoro.ts:69-84 | With an interval armed, the count drops by one and is shown. At or below 0 it is clamped to 0 and the timer stops, with only the kept interval disarmed. With nothing armed, nothing happens. Validity is preserved |
| Pomodoro.Release | src/actions/pomodoro.ts:34-54 | Without a pending key-down nothing changes. Otherwise the pending press is always cleared. A press of `>= 600` ms resets and shows 25:00. A shorter press shows nothing and flips `running`, keeping the count unless a finished timer restarts |
| Pomodoro.Step | src/actions/pomodoro.ts:25-54 | Every event keeps the state valid: count within [0, 1500], time left while running, one armed interval exactly while running |
| PomodoroRuns.RunPreservesValid | src/actions/pomodoro.ts:18-23 | Any sequence of events from a valid state ends in a valid state |
| PomodoroRuns.Reachable | src/actions/pomodoro.ts:18-23 | In every state reachable from the initial one, `0 <= remaining <= 1500` and at most one interval is armed, exactly while the timer runs |
| PomodoroRuns.InitialRender | src/actions/pomodoro.ts:13-27 | The timer starts at 1500 s, stopped, with no press pending. Appearing shows "25:00" and changes nothing |
| PomodoroRuns.StrayKeyUpIgnored | src/actions/pomodoro.ts:34-37 | A key-up with no recorded key-down leaves state and output unchanged |
| PomodoroRuns.KeyDownRecordsLatest | src/actions/pomodoro.ts:29-32 | A key-down only records its time; a repeated key-down overwrites the earlier one |
| PomodoroRuns.TitleIffLongPress | src/actions/pomodoro.ts:42-53 | A handled key-up writes a title if and only if the press was long |
| PomodoroRuns.LongPressBoundary | src/actions/pomodoro.ts:43 | Exactly 600 ms is a long press; 599 ms and negative durations are short |
| PomodoroRuns.LongPressResets | src/actions/pomodoro.ts:42-46 | A long press from any state stops at 25 minutes, shows "25:00" once, and clears the pending press |
| PomodoroRuns.PauseResumeLosesNoTime | src/actions/pomodoro.ts:87-97 | Two short presses on a running timer, with no tick between them, pause and resume it with the same `remaining` and show nothing |
| PomodoroRuns.TicksCountDown | src/actions/pomodoro.ts:69-73 | `N` ticks from a running count `r > N` leave `r - N`, still running, with nothing else changed |
| PomodoroRuns.TicksShowCountdown | src/actions/pomodoro.ts:69-72 | Those `N` ticks show `r-1, r-2, ..., r-N` in order |
| PomodoroRuns.TicksRunOut | src/actions/pomodoro.ts:74-83 | `r` ticks from a running count `r` show `r-1` down to 0 (last title "0:00") and leave the timer stopped at 0 with no interval armed |
| PomodoroRuns.StoppedIgnoresTicks | src/actions/pomodoro.ts:77-81 | Once stopped, no armed interval remains, so a tick changes nothing |
| PomodoroRuns.RestartAfterRunOut | src/actions/pomodoro.ts:62-67 | A short press on a timer that ran out restarts it from 25 minutes with one interval armed |

## Left out

- `src/plugin.ts` (logger level, action registration, connection to the host): host plumbing with no logic.
- The `@action` decorator, `SingletonAction` and the event types: foreign library code. The singleton's one shared state is modelled as one `State`.
- `setInterval` and `clearInterval`: modelled only as armed handles. The 1000 ms period is not modelled; each firing is a `Tick` event.
- `setTitle`: modelled as the count in the step's output. The returned promise and its completion are not modelled.
- `Date.now()`: the time is passed in as the `now` of `KeyDown` and `KeyUp`.
- The `timer` setting: it is declared but never read.
- Pomodoro.Fire: the tick body runs as one atomic step. In the source, the zero check runs after `await setTitle`, so other events could interleave in between; that interleaving is not modelled.
- Decimal.IntToString: covers integers only. JavaScript switches to exponent notation from 10^21 upward, a size the count never reaches.
