# Pomodoroo session controller in Dafny

This project models the session controller of the Pomodoroo iOS app: the object
that counts a Pomodoro session down. A session is a configured number of work
intervals ("pomodoros") separated by breaks. The controller runs a countdown for
the current phase. It shows the remaining time as `[0H:]MM:SS` text and a ring
fill. When the last work interval ends it resets itself and posts a "session
complete" notification.

The model has four modules, one file each:

- `Config` (`config.dfy`) is the configuration record: the number of work
  intervals and the work and break lengths in minutes, with the derived lengths
  in seconds and the defaults 3 / 20 / 5.
- `TimerText` (`timer_text.dfy`) is the formatter that turns a second count into
  the display text. A parser `ParseClock` reads the text back, and the round trip
  is proved.
- `Session` (`session.dfy`) is the specification. A `State` value holds every
  controller field, and each controller operation is a function on it. The
  invariant `Inv` holds in every reachable state. The lemmas state what each
  operation promises and what whole phases, cycles and sessions of ticks do.
- `Controller` (`controller.dfy`) holds the class `ViewModel`. It has the
  controller's fields, and its methods update them in place, branch by branch
  as the app does. Each method is proved to keep `Session.Inv` and to leave the
  fields equal to the `Session` function applied to the old fields.

Two rules from the home screen change controller state, so they are modelled as
operations. `Tick` advances the countdown only while the timer runs.
`Configure` resets the session whenever the configuration changes.

The model follows the code as written, including these behaviours:

- A phase counter stays at 0 for one full tick. The phase changes on the next
  tick, so a phase of `n` seconds lasts `n + 1` ticks.
- The work counter is refilled when a break begins. The break counter is
  refilled when the break ends.
- A phase-change tick does not rewrite the display. After it, the new phase is
  shown as the "00:00" the old phase ended on (`Session.DisplayConsistent`).
- `prepareTimerString` formats the configured work length, not the live counter.
- The hours field is a literal `0` followed by the hours, so ten hours reads
  `010:00:00`.
- Starting a session does not set the phase. The invariant proves the phase is
  already the work phase whenever no session is active.
- Any configuration change resets the session, whether or not one is active. An
  edit back to the same configuration changes nothing.
- A fresh controller has all counters at 0 until the first start or reset.

## Model

| member | source | states |
|---|---|---|
| Config.Model.PomodoroLengthInSeconds | Pomodoroo/Model.swift:15-17 | the work length in seconds is a whole number of minutes, and those minutes are the configured work minutes |
| Config.Model.BreakLengthInSeconds | Pomodoroo/Model.swift:19-21 | the break length in seconds is a whole number of minutes, and those minutes are the configured break minutes |
| Config.Default | Pomodoroo/Model.swift:11-13 | the default configuration has 3 intervals, 1200 work seconds and 300 break seconds |
| Config.EqualityIsFieldwise | Pomodoroo/Model.swift:10 | two configurations are equal exactly when all three fields are equal |
| TimerText.DecimalValue | Pomodoroo/ViewModel.swift:68-70 | decimal rendering gives at least one digit, the digits denote the number, there is exactly one digit below ten, and a positive number has no leading zero |
| TimerText.TwoDigitsValue | Pomodoroo/ViewModel.swift:69-70 | a minutes or seconds field below 100 is exactly two digits that denote the field |
| TimerText.FormatShape | Pomodoroo/ViewModel.swift:62-71 | the text is `MM:SS` (five characters) exactly below one hour; from one hour on, a digit run starting with '0' and a ':' come first |
| TimerText.FormatFields | Pomodoroo/ViewModel.swift:63-70 | the last two characters are the seconds `secs % 60` and the two before the ':' the minutes `secs / 60 % 60`, each zero-padded to two digits and below 60; below one hour nothing precedes them; from one hour on they are preceded by '0', the decimal hours and ':' |
| TimerText.FormatRoundTrip | Pomodoroo/ViewModel.swift:114-121 | parsing the text of any second count gives that count back, so distinct counts show distinct texts |
| TimerText.FormatWithoutHours | Pomodoroo/ViewModel.swift:62-71 | 0 shows "00:00", 65 shows "01:05" and 1200 shows "20:00" |
| TimerText.FormatWithHours | Pomodoroo/ViewModel.swift:156-163 | 3661 shows "01:01:01" and 7200 shows "02:00:00" |
| TimerText.FormatTenHours | Pomodoroo/ViewModel.swift:68 | 36000 shows "010:00:00", because the literal '0' is always prefixed to the hours |
| Session.InitialInv | Pomodoroo/ViewModel.swift:17-31 | a fresh controller satisfies the invariant, is inactive, and shows "00:00" |
| Session.InvPreserved | Pomodoroo/ViewModel.swift:73-185 | every operation keeps the invariant: running implies active; inactive implies nothing completed and work phase; while active, remaining plus completed intervals equal the configured count; both counters stay between 0 and their configured lengths |
| Session.DisplayAfterTick | Pomodoroo/ViewModel.swift:110-176 | after a tick, the display still shows the current counter, or "00:00" when a phase has just begun |
| Session.DisplayPreserved | Pomodoroo/ViewModel.swift:73-108 | start, stop, reset, tick and configuration edits all keep the invariant and the display consistency |
| Session.StartTimerEffect | Pomodoroo/ViewModel.swift:73-86 | start always leaves the timer running and the session active; starting an inactive session sets the two flags, loads the three counters from the configuration and shows the configured work length, and changes nothing else; resuming changes only the running flag; starting twice is starting once |
| Session.StopTimerPauses | Pomodoroo/ViewModel.swift:88-92 | stop clears the running flag and changes nothing else; no number of ticks changes a stopped state |
| Session.ResetTimerEffect | Pomodoroo/ViewModel.swift:94-108 | reset leaves an inactive, stopped work phase with nothing completed, counters equal to the configuration and the configured work length displayed; it keeps the invariant; resetting twice is resetting once |
| Session.ResetForgets | Pomodoroo/ViewModel.swift:94-108 | the state after a reset depends only on the configuration and the notification count |
| Session.TickCountsDown | Pomodoroo/ViewModel.swift:110-125 | a running tick with time left takes exactly one second off the current counter and displays the new value; the other counter, the interval counts and the notifications are untouched |
| Session.WorkPhaseEnds | Pomodoroo/ViewModel.swift:127-148 | a work tick at 0 consumes one interval; with intervals left it enters the break with the work counter refilled and nothing else changed; otherwise the session is reset and exactly one notification is emitted |
| Session.BreakPhaseEnds | Pomodoroo/ViewModel.swift:168-175 | a break tick at 0 returns to work with the break counter refilled and nothing else changed |
| Session.ConfigureEffect | Pomodoroo/HomeView.swift:229-231 | an edit stores the new configuration; a changed configuration resets the session under it; an unchanged one changes nothing |
| Session.InvTicks | Pomodoroo/HomeView.swift:283-287 | the invariant holds after any number of ticks |
| Session.CountDown | Pomodoroo/ViewModel.swift:110-125 | `n` ticks with at least `n` seconds left count the current phase down by exactly `n` and do nothing else |
| Session.WorkPhase | Pomodoroo/ViewModel.swift:110-150 | a full work phase of `w` seconds is still at work with 0 left after `w` ticks and ends after `w + 1` ticks, in a full break or at the end of the session |
| Session.WorkPhaseStaysAtWork | Pomodoroo/ViewModel.swift:110-126 | a full work phase of `w` seconds stays in the work phase for each of its first `w` ticks |
| Session.BreakPhase | Pomodoroo/ViewModel.swift:152-176 | a full break of `b` seconds ends after `b + 1` ticks at the start of the next work interval, with the interval counts unchanged |
| Session.Cycle | Pomodoroo/ViewModel.swift:110-185 | a work phase and its break take `w + 1 + b + 1` ticks and consume exactly one interval |
| Session.LastInterval | Pomodoroo/ViewModel.swift:138-148 | the last work interval of `w` seconds is still active after `w` ticks and ends the session on tick `w + 1` |
| Session.RemainingTicksValue | Pomodoroo/ViewModel.swift:110-185 | with `k >= 1` intervals to go, the rest of a session takes `k` work phases and `k - 1` breaks of ticks, `k * w + (k - 1) * b` |
| Session.LastIntervalStart | Pomodoroo/ViewModel.swift:110-185 | from the start of a work interval with `k` intervals to go, the cycles before the last interval lead to the start of the last interval, same configuration, no notification yet |
| Session.LastIntervalStartAfterCycle | Pomodoroo/ViewModel.swift:110-185 | with at least two intervals to go, one cycle followed by the cycles of one interval fewer reaches the start of the last interval |
| Session.RemainingSession | Pomodoroo/ViewModel.swift:110-185 | from the start of a work interval with `k` intervals to go, the session is reset with one more notification after `RemainingTicks` ticks, and is still active one tick earlier |
| Session.WholeSession | Pomodoroo/ViewModel.swift:73-185 | an idle session that is started ends after exactly `SessionTicks` ticks: it is still active one tick earlier, and at `SessionTicks` it is back in its reset state with one more notification; a single-interval session never enters a break |
| Session.SingleTwentyMinuteSession | Pomodoroo/ViewModel.swift:73-150 | one 20-minute interval still runs after 1200 ticks and ends on the 1201st, showing "20:00" again, with one notification |
| Controller.ViewModel.constructor | Pomodoroo/ViewModel.swift:17-38 | a new controller holds the initial field values and satisfies the invariant |
| Controller.ViewModel.PrepareTimerString | Pomodoroo/ViewModel.swift:62-71 | only the display changes, and it shows the configured work length; the invariant is kept |
| Controller.ViewModel.StartTimer | Pomodoroo/ViewModel.swift:73-86 | the fields become `Session.StartTimer` of the old fields and the invariant is kept |
| Controller.ViewModel.StopTimer | Pomodoroo/ViewModel.swift:88-92 | the fields become `Session.StopTimer` of the old fields and the invariant is kept |
| Controller.ViewModel.ResetTimer | Pomodoroo/ViewModel.swift:94-108 | from any field values, the fields become `Session.ResetTimer` of the old fields, which satisfy the invariant |
| Controller.ViewModel.PomodoroRunning | Pomodoroo/ViewModel.swift:110-150 | the fields become `Session.PomodoroRunning` of the old fields and the invariant is kept |
| Controller.ViewModel.BreakRunning | Pomodoroo/ViewModel.swift:152-176 | the fields become `Session.BreakRunning` of the old fields and the invariant is kept |
| Controller.ViewModel.UpdateTimer | Pomodoroo/ViewModel.swift:178-185 | the tick is dispatched on the phase; the fields become `Session.UpdateTimer` of the old fields and the invariant is kept |
| Controller.ViewModel.Tick | Pomodoroo/HomeView.swift:283-287 | the countdown advances only while running; the fields become `Session.Tick` of the old fields |
| Controller.ViewModel.Configure | Pomodoroo/HomeView.swift:229-231 | the new configuration is stored and a change resets the session; the fields become `Session.Configure` of the old fields |

## Left out

- SwiftUI layout, animations, sliders, overlay, indicator dots and ring geometry are presentation only. The `withAnimation` wrappers have no effect on state.
- The ring fill is a floating-point quotient in the app. It is modelled as the exact pair (counter, configured length), so floating-point rounding is not modelled.
- Notification authorization, the delegate and `pushNotification` call a foreign framework. Posting a notification is modelled as incrementing the `notifications` counter.
- The app schedules a tick every 0.01 s with `Timer.publish`. The model has an abstract `Tick` step with no wall-clock time.
- The configuration fields are `Double` in the app and `Codable`. The model uses natural numbers, because the sliders produce only whole numbers. Fractional minutes and the truncation of `Int(minutes * 60)` are not modelled.
- The slider ranges (work 20-120 minutes, break 5-45 minutes, 1-12 intervals) belong to the view and are not enforced. The model admits any natural numbers, including 0.
- Swift's `Int` is 64 bits wide, and overflow would trap. The model's integers are unbounded. No reachable value comes near the bound.
- The timer button pauses by clearing `isTimerRunning`. That has the same controller effect as `StopTimer`, so it has no separate member. It also sets the view flag `setNewPomodoro`.
- `setNewPomodoro` and `isSmallerDevice` are view flags and are not modelled. The app's start-up call to `prepareTimerString` is the `PrepareTimerString` operation.
- Controller.ViewModel.PomodoroRunning: requires a running timer, because its only caller is the tick guard. The same holds for `BreakRunning` and `UpdateTimer`.
- Session.WorkPhase: speaks about phases that begin with full counters. Every phase of a session begins that way, as `Session.WholeSession` shows.
