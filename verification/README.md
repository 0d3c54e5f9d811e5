# TomatoBar interval timer, in Dafny

TomatoBar is a macOS menu-bar Pomodoro timer. Everything it does besides AppKit wiring
lives in `TomatoBarController`: a two-state machine (Idle: no timer; Running: a
one-second timer exists) driven by clicks on Start/Stop (or the Touch Bar button) and by
timer firings. The controller counts `timeLeft` down, shows it as `MM:SS` in the status
bar and on the Touch Bar, swaps the Start and Stop menu items, widens the status item
while running, beeps on start, cancel and completion when sound is on, and delivers a
"Time's up" notification on completion.

The project has three modules:

- `Format` (`format.dfy`): the `MM:SS` text, built as the source builds it, with Swift's
  truncating `/` and `%` and printf's `%.2i` (minus sign, then at least two digits). A
  parser reads the text back; the round trip, the digit layout and injectivity are proved.
- `Pomodoro` (`pomodoro.dfy`): the controller's observable state as a value, one function
  per private operation (`start`, `cancel`, `finish`, `reset`, `tick`, `playSound`,
  `sendNotication`), the click and timer events, runs of events, and the lemmas:
  the invariant, the menu-item swap, the silent mode, the countdown and the completion
  boundary.
- `TomatoBar` (`controller.dfy`): class `TomatoBarController` with the source's state as
  fields, updated in place by methods of the same names. Each method's `ensures` equates the
  new `Snapshot()` with the `Pomodoro` transition of the old one, so the lemmas carry over.

Side effects are recorded, not performed: `beeps` counts `NSSound.beep()` calls and
`delivered` lists the notifications handed to the notification centre. The two
preferences become constructor parameters; `WithDefaults` uses the registered defaults
of 25 minutes and sound on.

The completion boundary: the tick decrements first and checks afterwards. An interval of
L = `intervalLength * 60` seconds therefore completes on firing L + 1, and firing L shows
`00:00` (`Pomodoro.IntervalFromStart`). The timer is scheduled with its first deadline at
once, not one second after start. So firing L + 1 comes L seconds after the click, and the
wall-clock length matches the setting. The model keeps this boundary as written.

A tick already in flight when the timer is cancelled is not ignored by any guard in the
code. The model has no late firings: `Tick` requires a running timer, and `Step` ignores a
firing while idle, which stands for there being no timer then. The race itself is listed
under "Left out".

## Model

| member | source | states |
|---|---|---|
| `Format.Quot` | TomatoBar/TomatoBarController.swift:20 | Swift's `/` on `Int`; no contract of its own, its properties are stated by `Format.QuotRem` |
| `Format.Rem` | TomatoBar/TomatoBarController.swift:20 | Swift's `%` on `Int`; no contract of its own, its properties are stated by `Format.QuotRem` |
| `Format.FormatInt` | TomatoBar/TomatoBarController.swift:20 | printf's `%.2i`; no contract of its own, its properties are stated by `Format.FormatIntValue` |
| `Format.TimeLeftString` | TomatoBar/TomatoBarController.swift:19-21 | the `timeLeftString` property; no contract of its own, its properties are stated by `Format.TimeLeftStringShape`, `Format.TimeLeftStringDigits` and `Format.TimeLeftStringRoundTrip` |
| `Format.QuotRem` | TomatoBar/TomatoBarController.swift:20 | Swift's `/` and `%` truncate: quotient times 60 plus remainder gives back `timeLeft`, the remainder is below 60 in magnitude and has the dividend's sign, and both agree with the Euclidean operators on non-negative values |
| `Format.Decimal` | TomatoBar/TomatoBarController.swift:20 | the digits of a number are decimal digits without a leading zero, one digit exactly below 10, at most two exactly below 100 |
| `Format.DecimalRoundTrip` | TomatoBar/TomatoBarController.swift:20 | the digits printed for `n` denote `n` |
| `Format.LeadingZeros` | TomatoBar/TomatoBarController.swift:20 | the zeros `%.2i` pads with do not change the value the digits denote |
| `Format.FormatIntValue` | TomatoBar/TomatoBarController.swift:20 | `%.2i` prints a minus sign exactly for a negative value, then max(2, digit count) digits denoting the magnitude |
| `Format.TimeLeftStringShape` | TomatoBar/TomatoBarController.swift:19-21 | for `timeLeft >= 0` the text is minutes `timeLeft / 60` in at least two digits, `:`, then seconds `timeLeft % 60` in exactly two digits (00–59); exactly five characters below 100 minutes |
| `Format.TimeLeftStringDigits` | TomatoBar/TomatoBarController.swift:19-21 | below 100 minutes the text is the four digits of minutes and seconds around a colon |
| `Format.TimeLeftStringRoundTrip` | TomatoBar/TomatoBarController.swift:19-21 | parsing the text of a non-negative `timeLeft` gives `timeLeft` back |
| `Format.TimeLeftStringInjective` | TomatoBar/TomatoBarController.swift:19-21 | different non-negative times never show the same text |
| `Pomodoro.IntervalLengthSeconds` | TomatoBar/TomatoBarController.swift:14 | the `intervalLengthSeconds` property; no contract of its own, `Pomodoro.Toggle` and `Pomodoro.IntervalFromStart` state the start value it gives |
| `Pomodoro.PlaySound` | TomatoBar/TomatoBarController.swift:124-129 | `playSound`; no contract of its own, `Pomodoro.Step` and `Pomodoro.SilentWithoutSound` state when it beeps |
| `Pomodoro.SendNotification` | TomatoBar/TomatoBarController.swift:132-137 | `sendNotication`; no contract of its own, `Pomodoro.Tick` and `Pomodoro.Step` state when the notification is added |
| `Pomodoro.Reset` | TomatoBar/TomatoBarController.swift:97-108 | `reset`; no contract of its own, `Pomodoro.Toggle` (cancel branch) and `Pomodoro.Tick` (finish branch) state its effects |
| `Pomodoro.Start` | TomatoBar/TomatoBarController.swift:64-81 | `start`; no contract of its own, `Pomodoro.Toggle` (idle branch) states its effects |
| `Pomodoro.Finish` | TomatoBar/TomatoBarController.swift:84-88 | `finish`; no contract of its own, `Pomodoro.Tick` (finish branch) and `Pomodoro.Completion` state its effects |
| `Pomodoro.Cancel` | TomatoBar/TomatoBarController.swift:91-94 | `cancel`; no contract of its own, `Pomodoro.Toggle` (running branch) states its effects |
| `Pomodoro.Toggle` | TomatoBar/TomatoBarController.swift:59-81 | when idle a click starts: timer present, `timeLeft == intervalLength * 60`, status width 70. When running it cancels: timer gone, `timeLeft` kept, variable width. Either way the menu items swap, one beep with sound on, no notification, titles untouched |
| `Pomodoro.Tick` | TomatoBar/TomatoBarController.swift:111-121 | `timeLeft` drops by exactly one. Still running iff the result is >= 0, and then both titles show it and nothing else changes. Otherwise finish: one `Time's up` notification, menu swap, variable width, beep gated by sound |
| `Pomodoro.Step` | TomatoBar/TomatoBarController.swift:80-94 | per event, a beep sounds exactly when the timer starts or stops and sound is on; a notification is added exactly when a timer firing ends the interval |
| `Pomodoro.InitialInv` | TomatoBar/TomatoBarController.swift:17 | the state after launch satisfies the invariant, with one menu item hidden and the other shown |
| `Pomodoro.RunInv` | TomatoBar/TomatoBarController.swift:64-121 | after any sequence of clicks and firings: Start is hidden exactly while running, width 70 exactly while running, a running countdown within `[0, intervalLength*60]` (or exactly the interval if that is negative), titles showing `timeLeft` once a tick ran |
| `Pomodoro.ExactlyOneHidden` | TomatoBar/TomatoBarController.swift:69 | from one menu item hidden and one shown, exactly one stays hidden across any sequence of events, because `start` and `reset` swap the flags |
| `Pomodoro.SilentWithoutSound` | TomatoBar/TomatoBarController.swift:124-129 | with sound off no sequence of events beeps |
| `Pomodoro.Countdown` | TomatoBar/TomatoBarController.swift:111-116 | from a running state with `timeLeft >= k`, k firings leave it running with `timeLeft - k` shown in both titles, and no beep, notification or menu change |
| `Pomodoro.Completion` | TomatoBar/TomatoBarController.swift:117-118 | from `timeLeft = n >= 0`, firing n + 1 completes: timer gone, `timeLeft == -1`, exactly one notification, one beep with sound on, menu items swapped back |
| `Pomodoro.IntervalFromStart` | TomatoBar/TomatoBarController.swift:73 | after the click that starts an interval of L seconds: k <= L firings leave `L - k` running with nothing notified; firing L shows `00:00` in both titles; firing L + 1 completes with one notification and two beeps in all when sound is on |
| `Pomodoro.OneMinuteScenario` | TomatoBar/TomatoBarController.swift:73-88 | a one-minute interval with sound: 60 firings show `00:00` still running; firing 61 stops it with one `Time's up` notification after two beeps |
| `Pomodoro.CancelScenario` | TomatoBar/TomatoBarController.swift:91-94 | cancelling with 45 seconds left stops the timer, delivers nothing and plays one beep |
| `TomatoBar.TomatoBarController.constructor` | TomatoBar/TomatoBarController.swift:5-17 | the controller after launch, with the two preferences given: idle, `timeLeft` 0, Start shown, Stop hidden, variable width, invariant holds |
| `TomatoBar.TomatoBarController.WithDefaults` | TomatoBar/TomatoBarController.swift:43-47 | the same with the registered defaults, 25 minutes and sound on |
| `TomatoBar.TomatoBarController.StartStopAction` | TomatoBar/TomatoBarController.swift:59-61 | flips running and applies `Pomodoro.Toggle` to the whole state, keeping the invariant |
| `TomatoBar.TomatoBarController.Start` | TomatoBar/TomatoBarController.swift:64-81 | from idle: running with `timeLeft == intervalLength * 60`, menu items swapped, width 70, beep gated by sound |
| `TomatoBar.TomatoBarController.Finish` | TomatoBar/TomatoBarController.swift:84-88 | appends one `Time's up` notification, tears down, beeps; ends idle with the invariant restored |
| `TomatoBar.TomatoBarController.Cancel` | TomatoBar/TomatoBarController.swift:91-94 | from running: idle, nothing delivered, `timeLeft` unchanged, beep gated by sound |
| `TomatoBar.TomatoBarController.Reset` | TomatoBar/TomatoBarController.swift:97-108 | timer dropped, menu flags swapped, variable width, everything else unchanged |
| `TomatoBar.TomatoBarController.Tick` | TomatoBar/TomatoBarController.swift:111-121 | `timeLeft` one lower, still running iff it is >= 0, whole new state as `Pomodoro.Tick`, invariant kept |
| `TomatoBar.TomatoBarController.PlaySound` | TomatoBar/TomatoBarController.swift:124-129 | one more beep exactly when sound is enabled, nothing else changes |
| `TomatoBar.TomatoBarController.SendNotification` | TomatoBar/TomatoBarController.swift:132-137 | appends the fixed notification `Time's up` / `Keep up the good work!` |

## Left out

- View setup in `viewDidLoad` is not modelled: the status item's alignment and image, the menu, and the Touch Bar tray registration through a private framework call. These are UI and foreign calls. Only the resulting initial status width is kept.
- Timer scheduling is not modelled: the dispatch timer, its queue, the one-second period and strict leeway. A firing is one atomic event, and there is no clock.
- The hand-off of each tick to the main queue is not modelled, nor the race between the decrement and the check, nor a firing already in flight when the timer is cancelled. These are concurrency. `Tick` therefore requires a running timer.
- Preferences are fixed when the controller is created. The source reads `UserDefaults` at every use, so a change made while running affects the next start or the next beep. The preference checkbox and the persistence are not modelled.
- `NSSound.beep()` and notification delivery are reduced to a counter and a list of delivered notifications.
- Cosmetic button state is not modelled: the Touch Bar button's image position and bezel colour, and the status bar button's image position.
- The nib's initial state is an assumption: Start shown, Stop hidden, empty titles. The status item is always present after launch, so its optional-chaining `nil` case is not modelled.
- Integers are unbounded. Swift would trap on overflow of `intervalLength * 60` or of `timeLeft - 1`. The 32-bit argument width of `%i` is also not modelled. Both matter only for intervals of millions of years.
