# Countdown timer screen

A model of the countdown timer screen of a React Native app (`App/index.js`).
The user picks hours, minutes and seconds on three dial pickers and presses
Start. The screen then counts down once a second. At zero it stops: it
clears the interval, resets the count to the default of 5 seconds, starts
the vibration, plays a sound and shows a "Your time is up!" dialog. Either
of the dialog's two buttons cancels the vibration.

The project has six modules:

- `Wrappers` (`wrappers.dfy`): the `Option` type.
- `Decimal` (`decimal.dfy`): how the screen renders numbers with
  `Number.prototype.toString` and reads them with `parseInt`. Decimal
  strings are `seq<char>`.
- `TimeFormat` (`time_format.dfy`): `formatNumber` and `getRemaining`, the
  two-character readout of hours, minutes and seconds.
- `PickerValues` (`picker_values.dfy`): `createArray` as a method with a
  loop, and the strings offered by the three pickers.
- `Countdown` (`countdown.dfy`): the screen's state as an `Engine` value.
  Each handler and lifecycle method is a step function on that value:
  `start`, one interval tick, `stop`, `componentDidUpdate`, a picker
  change, a dialog button and `componentWillUnmount`. The lemmas state the
  properties of these steps and of whole runs.
- `Screen` (`app.dfy`): the `App` class. Its fields are the React state and
  the interval handle, and its methods change them in place. Each method is
  proved to perform exactly the matching `Countdown` step. `Start`,
  `IntervalFired` and `OnValueChange` keep the invariant `Valid()`, and
  `Stop` and `PressAlertButton` keep it when called from a valid state.
  `ComponentDidUpdate` and `Silence` are the parts `Stop` and
  `PressAlertButton` are built from, and promise only their step.
  Unmounting a running screen clears its interval but leaves the running
  flag and the handle set, so the invariant ends there
  (`Countdown.UnmountWhileRunningEndsInvariant`).

Four effects of the platform are modelled as ghost fields of `App` and as
fields of `Engine`:

- the set of intervals still firing (`liveTimers`);
- whether the device is vibrating (`vibrating`);
- the number of open dialogs (`openAlerts`);
- the number of `stop` calls (`stopCount`).

Two things the platform decides are parameters:

- `setInterval`'s return value is the `handle` parameter of `Start`;
- the passage of time is the caller's choice of when to call
  `IntervalFired` (or of how many steps `Ticks` takes). An interval fires
  only while some interval is live, so after `clearInterval` nothing fires.

React runs `componentDidUpdate` after the state update of every handler.
The model runs it at the end of every step, with the count from before the
step. `stop` itself updates the state, so `DidUpdate` and `Stop` are
mutually recursive, as they are in the source. The recursion ends because
`stop` sets the count to 5, which is not 0.

## Model

| member | source | states |
|---|---|---|
| Decimal.ToDecimal | App/index.js:98 | `i.toString()` for a non-negative integer: at least one character, all decimal digits, a leading "0" only in "0", the form of 0, and last digit `n % 10` |
| Decimal.DigitPrefixLength | App/index.js:198-199 | the run of digits `parseInt` reads: every character before it is a digit and the first one after it is not |
| Decimal.ParseInt | App/index.js:198-199 | `parseInt` gives NaN (None) exactly when no digit follows the optional sign |
| Decimal.DigitsValueOfDecimal | App/index.js:198-199 | the digits of `n.toString()` have the value `n` |
| Decimal.DigitPrefixOfDigits | App/index.js:198-199 | the digit run `parseInt` reads from digits followed by a non-digit, or by nothing, is exactly those digits |
| Decimal.ParseIntOfDecimalPrefix | App/index.js:198-199 | `parseInt` reads `n` back from its decimal form followed by any text that does not start with a digit |
| Decimal.ParseIntRoundTrip | App/index.js:98 | `parseInt(n.toString()) == n` for every non-negative integer `n` |
| Decimal.ToDecimalInjective | App/index.js:251-253 | distinct numbers have distinct decimal forms |
| TimeFormat.FormatNumber | App/index.js:79 | `` `0${n}`.slice(-2) `` is the two digits of `n % 100`: always two characters, and numbers of three or more digits keep only their last two |
| TimeFormat.FormatNumberPadsOneDigit | App/index.js:73-79 | a number below 10 gets a leading "0" ("3" becomes "03") |
| TimeFormat.FormatNumberKeepsTwoDigits | App/index.js:73-79 | a number from 10 to 99 is shown as its own decimal form ("10" stays "10") |
| TimeFormat.FormatNumberRoundTrip | App/index.js:79 | `parseInt` of a formatted number gives back `n % 100` |
| TimeFormat.ParseTwoDigits | App/index.js:79 | two digits a and b parse as `10 * a + b` |
| TimeFormat.Hours | App/index.js:86 | `Math.floor(time / 3600)` is the number of whole hours: `h * 3600 <= time < (h + 1) * 3600` |
| TimeFormat.Minutes | App/index.js:87 | the source's minutes `(time - hours * 3600) / 60` equal `time % 3600 / 60` and are below 60 |
| TimeFormat.RawSeconds | App/index.js:88 | the source's seconds `time - minutes * 60` equal `3600 * hours + time % 60`, not `time % 60` |
| TimeFormat.ClockDecomposition | App/index.js:86-88 | hours, minutes and seconds recompose `time` |
| TimeFormat.GetRemaining | App/index.js:85-90 | the readout's fields are the formatted `time / 3600`, `time % 3600 / 60` and `time % 60` |
| TimeFormat.RawSecondsQuirk | App/index.js:88-89 | from one hour up the raw seconds differ from `time % 60`, yet they format the same because 3600 is a multiple of 100 |
| TimeFormat.GetRemainingReadsBack | App/index.js:85-90 | below 100 hours every field is two characters and parses back to the hours, minutes and seconds, which recompose `time` |
| TimeFormat.ClockOf | App/index.js:85-88 | the clock fields of `h*3600 + m*60 + s` are `h`, `m` and `s` when `m` and `s` are below 60 |
| TimeFormat.GetRemainingOfClock | App/index.js:85-90 | a count of `h*3600 + m*60 + s` displays as the formatted `h`, `m` and `s` |
| TimeFormat.OneHourOneMinuteOneSecond | App/index.js:85-90 | 3661 seconds display as 01:01:01 |
| TimeFormat.FiveSeconds | App/index.js:85-90 | the default count of 5 displays as 00:00:05 |
| PickerValues.PickerItems | App/index.js:95-101 | the list of `n` items whose item `i` is the decimal form of `i` |
| PickerValues.CreateArray | App/index.js:95-101 | the loop returns exactly `PickerItems(length)` (the empty list for a length of 0 or less), and item `i` parses as `i` |
| PickerValues.PickerValueIff | App/index.js:104-106 | a string is among the first `n` items iff it is the decimal form of an index below `n` and parses as it |
| PickerValues.AvailableValues | App/index.js:104-106 | `AVAILABLE_HOURS` holds 24 items and `AVAILABLE_MINUTES` and `AVAILABLE_SECONDS` 60 each, and each holds exactly its picker's values |
| PickerValues.PickerOffers | App/index.js:104-106 | the decimal form of every index below `n` is on offer |
| PickerValues.PickerItemsDistinct | App/index.js:251-253 | the items are pairwise distinct, so they are unique keys |
| Countdown.Initial | App/index.js:134-143 | the initial state (5 seconds, idle, "0"/"0"/"10", null interval, no live interval) satisfies the invariant, and its selection seeds 10 seconds |
| Countdown.ClearInterval | App/index.js:212 | `clearInterval(handle)` removes exactly the held interval from the live ones; a null handle removes nothing |
| Countdown.SeedSeconds | App/index.js:198-199 | the seed is NaN (None) exactly when one of the three `parseInt` calls is, and otherwise `h*3600 + m*60 + s` of the parsed values; when the three selections are values their pickers offer, the seed is defined and lies between 0 and 86399 (23:59:59) |
| Countdown.DidUpdate | App/index.js:147-153 | when the count has just become 0, the screen is stopped: count 5, idle, handle nulled, held interval cleared, vibration on, one more dialog open, one more stop, selections kept; otherwise nothing changes |
| Countdown.Start | App/index.js:196-208 | `start` keeps the selections; it seeds the count, sets running and installs the new interval, leaving the vibration and the dialogs as they were, unless the seed is 0 and the count before it was not, which stops at once, clears the new interval, starts the vibration and opens the dialog |
| Countdown.Silence | App/index.js:170-175 | a dialog button's handler cancels the vibration, closes one dialog and changes nothing else |
| Countdown.Unmount | App/index.js:156-160 | `componentWillUnmount` removes the held interval from the live ones when the handle is truthy, and changes nothing else |
| Countdown.UnmountWhileRunningEndsInvariant | App/index.js:156-160 | unmounting a running screen leaves no live interval but keeps the running flag and the handle, so the invariant no longer holds |
| Countdown.Stop | App/index.js:211-235 | `stop` clears the held interval and nulls the handle, resets the count to 5, sets not running, starts vibrating, opens one dialog and keeps the selections; its own `componentDidUpdate` does not stop again |
| Countdown.Tick | App/index.js:203-206 | a firing takes exactly one second off and changes nothing else; when it takes the count from 1 to 0, it stops |
| Countdown.Select | App/index.js:245-277 | a picker change stores the value in its dial only and leaves every other field as it was |
| Countdown.Acknowledge | App/index.js:163-190 | either dialog button cancels the vibration, closes one dialog and changes nothing else |
| Countdown.AutoStopIsEdgeTriggered | App/index.js:147-153 | `componentDidUpdate` stops exactly once when the count has just become 0, and otherwise changes nothing |
| Countdown.DefaultSelectionIsDecimal | App/index.js:138-140 | the default selections "0" and "10" are the decimal forms of 0 and 10 |
| Countdown.SeedOfSelection | App/index.js:196-201 | selecting h, m and s seeds `h*3600 + m*60 + s`, which is at most 86399, and the readout then shows h, m and s |
| Countdown.SeedOfDecimals | App/index.js:198-199 | `parseInt` of the three decimal selections gives `h*3600 + m*60 + s` |
| Countdown.SettledSeed | App/index.js:196-201 | in any settled state `start` seeds a count from 0 to 86399, never NaN |
| Countdown.StartFromIdle | App/index.js:196-208 | `start` from idle keeps the selections; a positive seed runs the countdown on exactly the new interval; a zero seed stops at once and clears the interval just installed |
| Countdown.StartKeepsSettled | App/index.js:196-208 | `start` from idle keeps the invariant |
| Countdown.StartWhileRunningLeaksTimer | App/index.js:203 | `start` while running overwrites the handle without clearing it: the old interval stays live even after a later `stop` |
| Countdown.TickKeepsSettled | App/index.js:203-206 | a firing of the live interval keeps the invariant |
| Countdown.StopKeepsSettled | App/index.js:211-214 | `stop` keeps the invariant and leaves no live interval |
| Countdown.SelectKeepsSettled | App/index.js:245-248 | choosing an offered value keeps the invariant |
| Countdown.AcknowledgeSilences | App/index.js:168-187 | both buttons have the same effect, silence the vibration and keep the invariant |
| Countdown.StopThenAcknowledge | App/index.js:211-234 | after `stop`, pressing either button turns the vibration off, with the dialog count back where it was and one stop counted |
| Countdown.UnmountClearsTimers | App/index.js:156-160 | unmounting a settled screen leaves no live interval and changes nothing else |
| Countdown.TicksCountDown | App/index.js:203-206 | while an interval is live and before the count reaches zero, k firings take exactly k seconds off and change nothing else |
| Countdown.TicksStopOnce | App/index.js:147-153 | with only the held interval live, the firing that reaches zero stops the countdown and clears it, so no firing follows |
| Countdown.CountdownStopsExactlyOnce | App/index.js:196-214 | a countdown started with total T runs T, T-1, ..., 1 with no stop, then stops exactly once (at once when T is 0) with no live interval; every state on the way is settled |
| Countdown.DefaultSelectionRunsTenSeconds | App/index.js:134-141 | starting from the initial state counts 10 seconds and stops once after ten firings |
| Screen.App.constructor | App/index.js:134-143 | the initial state, which is settled |
| Screen.App.ComponentDidUpdate | App/index.js:147-153 | performs `Countdown.DidUpdate` on the fields |
| Screen.App.Stop | App/index.js:211-235 | performs `Countdown.Stop` on the fields; from a valid state the new state is valid and no interval is live |
| Screen.App.Start | App/index.js:196-208 | performs `Countdown.Start` with the handle `setInterval` returned, and keeps `Valid()` |
| Screen.App.IntervalFired | App/index.js:203-206 | a firing while an interval is live performs `Countdown.Tick` and keeps `Valid()` |
| Screen.App.OnValueChange | App/index.js:245-277 | performs `Countdown.Select` for an offered value and keeps `Valid()` |
| Screen.App.PressAlertButton | App/index.js:163-190 | performs `Countdown.Acknowledge`; from a valid state the new state is valid |
| Screen.App.Silence | App/index.js:170-175 | cancels the vibration and closes one dialog |
| Screen.App.ComponentWillUnmount | App/index.js:156-160 | performs `Countdown.Unmount`; from a valid state no interval is live afterwards (the invariant itself ends when the screen was running) |
| Screen.RunUntilStopped | App/index.js:147-153 | letting the interval fire until the screen is idle stops exactly once and ends valid, with the default count and no live interval |

## Left out

- Rendering, styles, the status bar, the animated gradient and its colours, and the `Dimensions` lookup are not modelled: they only draw the screen.
- Countdown.Stop: loading and playing the sound file is not modelled, because it is asynchronous audio I/O. The dialog holds the sound only so that its buttons can stop it.
- Countdown.Acknowledge: stopping the sound is not modelled, for the same reason; only the vibration is.
- Screen.App.Silence: stopping the sound is not modelled, for the same reason.
- The vibration pattern and the dialog's `cancelable: false` option are not modelled. Only whether the device vibrates and how many dialogs are open are recorded.
- Real time is not modelled: the caller decides when the interval fires. React may batch or defer updates; the model always runs `componentDidUpdate` at the end of each step.
- Decimal.ParseInt: leading whitespace and the `0x` prefix of the radix-less call at line 199 are not modelled. Every value a picker offers is a plain decimal string, so neither can occur there.
- Screen.App.Start: requires the screen to be idle, because the Start button is shown only while nothing is running (lines 310-318). The pure `Countdown.Start` has no such requirement, and `Countdown.StartWhileRunningLeaksTimer` shows what a second start would do.
- Screen.App.OnValueChange: requires a value the picker offers, because the pickers offer nothing else (lines 251-253).
- Screen.App.Start: requires `handle > 0`, and the invariant requires a held handle to be positive. This assumes `setInterval` returns a positive id, which the truthiness test `if (this.interval)` at line 157 relies on; a handle of 0 would never be cleared on unmount.
- Counts are unbounded integers, and `getRemaining` is modelled for non-negative counts only. JavaScript's floating-point numbers agree with that on every count the screen reaches: from 0 to 86399.
- `formatNumber`'s comment gives only padding examples ("3 -> 03, 10 -> 10", App/index.js:77), but `slice(-2)` also drops the leading digits of numbers of three or more digits. The model follows the code. The screen never shows more than 23 hours, so this never shows.
